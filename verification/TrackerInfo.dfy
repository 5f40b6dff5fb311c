/** What the trackers themselves are doing: one summary per domain, and one domain taken apart. */
module TrackerInfo {
  import opened Bytes
  import opened TorrentState
  import opened TrackerCache
  import opened Status
  import opened Sidebar

  /** One torrent, reduced to the parts a tracker is judged by. */
  datatype Row = Row(
    state: State,
    current: string,
    trackers: seq<TrackerEntry>,
    trackerStatus: string,
    size: int,
    downloaded: int,
    uploaded: int,
    seeds: int,
    peers: int,
    nextAnnounce: int)

  datatype Health = Down | Warning | Fine | Unknown

  /** What one announce URL, or a whole domain, adds up to. */
  datatype Totals = Totals(
    torrents: nat,
    announcing: nat,
    working: nat,
    failing: nat,
    updating: nat,
    fails: int,
    message: string,
    unregistered: nat,
    size: int,
    downloaded: int,
    uploaded: int,
    seeds: int,
    peers: int,
    nextAnnounce: int,
    states: map<State, nat>)
  {
    /** One torrent more; what the tracker said counts only where it was said. */
    function Add(w: Words, row: Row, here: bool): Totals {
      var t := this.(
        torrents := torrents + 1,
        size := size + row.size,
        downloaded := downloaded + row.downloaded,
        uploaded := uploaded + row.uploaded,
        states := OneMore(states, row.state));
      if !here then t
      else
        t.(announcing := announcing + 1,
           seeds := seeds + (if row.seeds > 0 then row.seeds else 0),
           peers := peers + (if row.peers > 0 then row.peers else 0),
           unregistered := if SaysUnregistered(w, row.trackerStatus) then unregistered + 1 else unregistered,
           nextAnnounce := if row.nextAnnounce > 0 && (nextAnnounce == 0 || row.nextAnnounce < nextAnnounce)
                           then row.nextAnnounce else nextAnnounce)
    }

    /** What libtorrent recorded against one tracker of one torrent: `verified` decides, not `fails`. */
    function AddEntry(entry: TrackerEntry): Totals {
      var t := if entry.updating then this.(updating := updating + 1) else this;
      if entry.verified then t.(working := working + 1)
      else if entry.fails == 0 then t
      else
        t.(failing := failing + 1,
           fails := if entry.fails > fails then entry.fails else fails,
           message := if message == "" && entry.message.Just? then entry.message.value else message)
    }

    function Judged(): Health {
      if failing > 0 && working == 0 then Down
      else if failing > 0 || unregistered > 0 then Warning
      else if working > 0 then Fine
      else Unknown
    }
  }

  const Empty := Totals(0, 0, 0, 0, 0, 0, "", 0, 0, 0, 0, 0, 0, 0, map[])

  /** One announce URL of a domain: the lowest tier any torrent has it in, and what it adds up to. */
  datatype Tab = Tab(tier: nat, totals: Totals)

  // --------------------------------------------------------- specification

  /** A domain's totals with the trackers of one torrent that belong to it. */
  function WithEntries(w: Words, totals: Totals, entries: seq<TrackerEntry>, host: string): Totals {
    if entries == [] then totals
    else
      var before := WithEntries(w, totals, entries[..|entries| - 1], host);
      var entry := entries[|entries| - 1];
      if w.hostOf(entry.url) == host then before.AddEntry(entry) else before
  }

  /** A domain: the torrents whose tracker belongs to it. */
  function Domain(w: Words, rows: seq<Row>, host: string): Totals {
    if rows == [] then Empty
    else
      var before := Domain(w, rows[..|rows| - 1], host);
      var row := rows[|rows| - 1];
      if w.hostOf(row.current) == host then WithEntries(w, before.Add(w, row, true), row.trackers, host) else before
  }

  function WithTab(w: Words, tabs: map<string, Tab>, row: Row, entry: TrackerEntry): map<string, Tab> {
    var tab := if entry.url in tabs then tabs[entry.url] else Tab(entry.tier, Empty);
    tabs[entry.url := Tab(
      if entry.tier < tab.tier then entry.tier else tab.tier,
      tab.totals.Add(w, row, entry.url == row.current).AddEntry(entry))]
  }

  function WithTabs(w: Words, tabs: map<string, Tab>, row: Row, entries: seq<TrackerEntry>, host: string): map<string, Tab> {
    if entries == [] then tabs
    else
      var before := WithTabs(w, tabs, row, entries[..|entries| - 1], host);
      var entry := entries[|entries| - 1];
      if w.hostOf(entry.url) == host then WithTab(w, before, row, entry) else before
  }

  function Tabs(w: Words, rows: seq<Row>, host: string): map<string, Tab> {
    if rows == [] then map[]
    else
      var before := Tabs(w, rows[..|rows| - 1], host);
      var row := rows[|rows| - 1];
      if w.hostOf(row.current) == host then WithTabs(w, before, row, row.trackers, host) else before
  }

  // -------------------------------------------------------- implementation

  predicate HasTorrent(w: Words, rows: seq<Row>, host: string) {
    rows != [] && (w.hostOf(rows[|rows| - 1].current) == host || HasTorrent(w, rows[..|rows| - 1], host))
  }

  /** Every domain, summarised. */
  method ByDomain(w: Words, rows: seq<Row>) returns (out: map<string, Totals>)
    ensures forall host :: host in out <==> host != "" && HasTorrent(w, rows, host)
    ensures forall host | host in out :: out[host] == Domain(w, rows, host)
  {
    out := map[];
    for i := 0 to |rows|
      invariant forall host :: host in out <==> host != "" && HasTorrent(w, rows[..i], host)
      invariant forall host | host != "" ::
        (if host in out then out[host] else Empty) == Domain(w, rows[..i], host)
    {
      var row := rows[i];
      assert rows[..i + 1][..i] == rows[..i];
      var host := w.hostOf(row.current);
      if host != "" {
        var totals := if host in out then out[host] else Empty;
        totals := totals.Add(w, row, true);
        totals := AddDomainEntries(w, totals, row.trackers, host);
        out := out[host := totals];
      }
    }
    assert rows[..|rows|] == rows;
  }

  method AddDomainEntries(w: Words, start: Totals, entries: seq<TrackerEntry>, host: string) returns (totals: Totals)
    ensures totals == WithEntries(w, start, entries, host)
  {
    totals := start;
    for i := 0 to |entries|
      invariant totals == WithEntries(w, start, entries[..i], host)
    {
      assert entries[..i + 1][..i] == entries[..i];
      if w.hostOf(entries[i].url) == host {
        totals := totals.AddEntry(entries[i]);
      }
    }
    assert entries[..|entries|] == entries;
  }

  /** One domain, taken apart tracker by tracker. */
  method Detail(w: Words, rows: seq<Row>, host: string) returns (domain: Totals, tabs: map<string, Tab>)
    ensures domain == Domain(w, rows, host)
    ensures tabs == Tabs(w, rows, host)
  {
    domain := Empty;
    tabs := map[];
    for i := 0 to |rows|
      invariant domain == Domain(w, rows[..i], host)
      invariant tabs == Tabs(w, rows[..i], host)
    {
      var row := rows[i];
      assert rows[..i + 1][..i] == rows[..i];
      if w.hostOf(row.current) == host {
        domain := domain.Add(w, row, true);
        ghost var start, before := domain, tabs;
        for j := 0 to |row.trackers|
          invariant domain == WithEntries(w, start, row.trackers[..j], host)
          invariant tabs == WithTabs(w, before, row, row.trackers[..j], host)
        {
          var entry := row.trackers[j];
          assert row.trackers[..j + 1][..j] == row.trackers[..j];
          if w.hostOf(entry.url) == host {
            domain := domain.AddEntry(entry);
            var tab := if entry.url in tabs then tabs[entry.url] else Tab(entry.tier, Empty);
            var tier := if entry.tier < tab.tier then entry.tier else tab.tier;
            var totals := tab.totals.Add(w, row, entry.url == row.current);
            totals := totals.AddEntry(entry);
            tabs := tabs[entry.url := Tab(tier, totals)];
          }
        }
        assert row.trackers[..|row.trackers|] == row.trackers;
      }
    }
    assert rows[..|rows|] == rows;
  }

  // ---------------------------------------------------------------- adding up

  datatype Count = Working | Failing | Updating

  function Get(t: Totals, count: Count): nat {
    match count
    case Working => t.working
    case Failing => t.failing
    case Updating => t.updating
  }

  ghost function Sum(tabs: map<string, Tab>, count: Count): nat {
    if tabs == map[] then 0
    else
      var url :| url in tabs;
      Get(tabs[url].totals, count) + Sum(tabs - {url}, count)
  }

  lemma SumTakesAny(tabs: map<string, Tab>, count: Count, url: string)
    requires url in tabs
    ensures Sum(tabs, count) == Get(tabs[url].totals, count) + Sum(tabs - {url}, count)
  {
    var first :| first in tabs && Sum(tabs, count) == Get(tabs[first].totals, count) + Sum(tabs - {first}, count);
    if first != url {
      SumTakesAny(tabs - {first}, count, url);
      SumTakesAny(tabs - {url}, count, first);
      assert tabs - {first} - {url} == tabs - {url} - {first};
    }
  }

  lemma SumOfUpdate(tabs: map<string, Tab>, count: Count, url: string, tab: Tab)
    ensures Sum(tabs[url := tab], count)
         == Sum(tabs, count) - (if url in tabs then Get(tabs[url].totals, count) else 0) + Get(tab.totals, count)
  {
    SumTakesAny(tabs[url := tab], count, url);
    assert tabs[url := tab] - {url} == tabs - {url};
    if url in tabs {
      SumTakesAny(tabs, count, url);
    } else {
      assert tabs - {url} == tabs;
    }
  }

  /** The parts and the whole agree: what the tabs count is what the domain counts. */
  ghost predicate Agree(domain: Totals, tabs: map<string, Tab>) {
    && (forall count :: Sum(tabs, count) == Get(domain, count))
    && (forall url | url in tabs ::
          && (tabs[url].totals.unregistered > 0 ==> domain.unregistered > 0)
          && (forall count :: Get(tabs[url].totals, count) <= Get(domain, count))
          && tabs[url].totals.fails <= domain.fails)
  }

  /** Which counts an entry goes into. */
  function Bit(entry: TrackerEntry, count: Count): nat {
    match count
    case Working => if entry.verified then 1 else 0
    case Failing => if !entry.verified && entry.fails != 0 then 1 else 0
    case Updating => if entry.updating then 1 else 0
  }

  lemma EntryCounts(t: Totals, entry: TrackerEntry)
    ensures forall count :: Get(t.AddEntry(entry), count) == Get(t, count) + Bit(entry, count)
    ensures t.AddEntry(entry).unregistered == t.unregistered
    ensures t.AddEntry(entry).fails
         == if !entry.verified && entry.fails != 0 && entry.fails > t.fails then entry.fails else t.fails
  {
  }

  lemma TorrentCounts(w: Words, t: Totals, row: Row, here: bool)
    ensures forall count :: Get(t.Add(w, row, here), count) == Get(t, count)
    ensures t.Add(w, row, here).fails == t.fails
    ensures t.Add(w, row, here).unregistered
         == t.unregistered + if here && SaysUnregistered(w, row.trackerStatus) then 1 else 0
  {
    hide SaysUnregistered;
  }

  lemma EntryKeepsAgreement(w: Words, domain: Totals, tabs: map<string, Tab>, row: Row, entry: TrackerEntry)
    requires Agree(domain, tabs) && domain.fails >= 0
    requires SaysUnregistered(w, row.trackerStatus) ==> domain.unregistered > 0
    ensures Agree(domain.AddEntry(entry), WithTab(w, tabs, row, entry)) && domain.AddEntry(entry).fails >= 0
    ensures domain.AddEntry(entry).unregistered == domain.unregistered
  {
    hide SaysUnregistered, Sum, Get, Totals.Add, Totals.AddEntry;
    var here := entry.url == row.current;
    var was := if entry.url in tabs then tabs[entry.url].totals else Empty;
    var now := was.Add(w, row, here);
    var after := WithTab(w, tabs, row, entry);
    NothingIsEmpty();
    EntryCounts(domain, entry);
    TorrentCounts(w, was, row, here);
    EntryCounts(now, entry);
    forall count
      ensures Sum(after, count) == Sum(tabs, count) + Bit(entry, count)
    {
      SumOfUpdate(tabs, count, entry.url, after[entry.url]);
    }
  }

  lemma NothingIsEmpty()
    ensures forall count :: Get(Empty, count) == 0
  {
  }

  lemma {:induction false} EntriesKeepAgreement(
    w: Words, domain: Totals, tabs: map<string, Tab>, row: Row, entries: seq<TrackerEntry>, host: string)
    requires Agree(domain, tabs) && domain.fails >= 0
    requires SaysUnregistered(w, row.trackerStatus) ==> domain.unregistered > 0
    ensures var after := WithEntries(w, domain, entries, host);
            && Agree(after, WithTabs(w, tabs, row, entries, host))
            && after.fails >= 0 && after.unregistered == domain.unregistered
  {
    hide SaysUnregistered, Agree;
    if entries != [] {
      var front, entry := entries[..|entries| - 1], entries[|entries| - 1];
      EntriesKeepAgreement(w, domain, tabs, row, front, host);
      if w.hostOf(entry.url) == host {
        EntryKeepsAgreement(w, WithEntries(w, domain, front, host), WithTabs(w, tabs, row, front, host), row, entry);
      }
    }
  }

  /** For every domain of every library, the window's tabs add up to the window's heading. */
  lemma {:induction false} TabsAddUp(w: Words, rows: seq<Row>, host: string)
    ensures Agree(Domain(w, rows, host), Tabs(w, rows, host))
    ensures Domain(w, rows, host).fails >= 0
  {
    hide SaysUnregistered;
    if rows != [] {
      var front, row := rows[..|rows| - 1], rows[|rows| - 1];
      TabsAddUp(w, front, host);
      if w.hostOf(row.current) == host {
        var start := Domain(w, front, host).Add(w, row, true);
        EntriesKeepAgreement(w, start, Tabs(w, front, host), row, row.trackers, host);
      }
    }
  }

  /**
   The colours agree: a domain that is fine has no tracker that is down or warns, a domain that
   is down has none that works, and one nothing is known of has none anything is known of.
   */
  lemma ColoursAgree(w: Words, rows: seq<Row>, host: string, url: string)
    requires url in Tabs(w, rows, host)
    ensures var whole, part := Domain(w, rows, host).Judged(), Tabs(w, rows, host)[url].totals;
            && (whole == Fine ==> part.Judged() in {Fine, Unknown})
            && (whole == Down ==> part.working == 0)
            && (whole == Unknown ==> part.Judged() == Unknown)
            && (part.Judged() in {Down, Warning} ==> whole in {Down, Warning})
  {
    TabsAddUp(w, rows, host);
    var domain, part := Domain(w, rows, host), Tabs(w, rows, host)[url].totals;
    assert Get(part, Working) <= Get(domain, Working) && Get(part, Failing) <= Get(domain, Failing);
  }

  lemma {:induction false} SumIsSomewhere(tabs: map<string, Tab>, count: Count)
    requires Sum(tabs, count) > 0
    ensures exists url :: url in tabs && Get(tabs[url].totals, count) > 0
  {
    var url :| url in tabs && Sum(tabs, count) == Get(tabs[url].totals, count) + Sum(tabs - {url}, count);
    if Get(tabs[url].totals, count) == 0 {
      SumIsSomewhere(tabs - {url}, count);
      var other :| other in tabs - {url} && Get((tabs - {url})[other].totals, count) > 0;
      assert other in tabs && Get(tabs[other].totals, count) > 0;
    }
  }

  /** And the other way: a domain that is fine owes it to a tracker that is. */
  lemma FineMeansSomeTabIs(w: Words, rows: seq<Row>, host: string)
    requires Domain(w, rows, host).Judged() == Fine
    ensures exists url :: url in Tabs(w, rows, host) && Tabs(w, rows, host)[url].totals.Judged() == Fine
  {
    TabsAddUp(w, rows, host);
    var domain, tabs := Domain(w, rows, host), Tabs(w, rows, host);
    assert Sum(tabs, Working) == Get(domain, Working);
    SumIsSomewhere(tabs, Working);
    var url :| url in tabs && Get(tabs[url].totals, Working) > 0;
    ColoursAgree(w, rows, host, url);
  }

  lemma {:induction false} EntriesAddNoTorrent(w: Words, totals: Totals, entries: seq<TrackerEntry>, host: string)
    ensures WithEntries(w, totals, entries, host).torrents == totals.torrents
    ensures WithEntries(w, totals, entries, host).announcing == totals.announcing
  {
    if entries != [] {
      EntriesAddNoTorrent(w, totals, entries[..|entries| - 1], host);
    }
  }

  /** A torrent as the window reads it: by the whole list, where the sidebar reads what is cached. */
  function RowOf(k: Known, sessionPaused: bool): Row {
    var s := k.status;
    Row(Derive(s.flags, sessionPaused, k.torrent.forcedError),
        CurrentTracker(s.currentTracker, k.trackers), k.trackers, k.torrent.trackerStatus,
        s.amounts.wanted, s.amounts.downloaded, s.amounts.uploaded, s.numComplete, s.numIncomplete, s.nextAnnounce)
  }

  function RowsOf(library: seq<Known>, sessionPaused: bool): seq<Row> {
    seq(|library|, i requires 0 <= i < |library| => RowOf(library[i], sessionPaused))
  }

  lemma {:induction false} AllAnnounceHere(w: Words, rows: seq<Row>, host: string)
    ensures Domain(w, rows, host).announcing == Domain(w, rows, host).torrents
  {
    hide SaysUnregistered;
    if rows != [] {
      var front, row := rows[..|rows| - 1], rows[|rows| - 1];
      AllAnnounceHere(w, front, host);
      EntriesAddNoTorrent(w, Domain(w, front, host).Add(w, row, true), row.trackers, host);
    }
  }

  /** The torrents the window puts on a host and those the sidebar does. */
  function OnHost(w: Words, library: seq<Known>, host: string): nat {
    if library == [] then 0
    else
      var k := library[|library| - 1];
      OnHost(w, library[..|library| - 1], host) + if w.hostOf(CurrentTracker(k.status.currentTracker, k.trackers)) == host then 1 else 0
  }

  lemma {:induction false} DomainCounts(w: Words, library: seq<Known>, sessionPaused: bool, host: string)
    ensures Domain(w, RowsOf(library, sessionPaused), host).torrents == OnHost(w, library, host)
  {
    hide SaysUnregistered;
    var rows := RowsOf(library, sessionPaused);
    if library != [] {
      var front, row := rows[..|rows| - 1], rows[|rows| - 1];
      assert front == RowsOf(library[..|library| - 1], sessionPaused);
      DomainCounts(w, library[..|library| - 1], sessionPaused, host);
      EntriesAddNoTorrent(w, Domain(w, front, host).Add(w, row, true), row.trackers, host);
    }
  }

  /** Whether the sidebar puts a torrent on the host the window puts it on. */
  predicate SameHost(w: Words, k: Known) {
    var announced := k.status.currentTracker;
    w.hostOf(CurrentTracker(announced, Offered(announced, k.cached, k.trackers, false))) == w.hostOf(CurrentTracker(announced, k.trackers))
  }

  lemma SameHostIff(w: Words, k: Known)
    ensures k.status.currentTracker != "" || Fresh(k.cached, k.trackers) ==> SameHost(w, k)
    ensures SameHost(w, k) <==> (k.status.currentTracker != "" || k.cached.Nothing?
                                 || w.hostOf(k.cached.value) == w.hostOf(FirstUrl(k.trackers)))
  {
  }

  lemma {:induction false} SidebarCounts(w: Words, library: seq<Known>, sessionPaused: bool, host: string)
    requires forall i | 0 <= i < |library| :: SameHost(w, library[i])
    ensures CountIn(w, FilterRows(library, sessionPaused), HostRow(host)) == OnHost(w, library, host)
  {
    var rows := FilterRows(library, sessionPaused);
    if library != [] {
      assert rows[..|rows| - 1] == FilterRows(library[..|library| - 1], sessionPaused);
      SidebarCounts(w, library[..|library| - 1], sessionPaused, host);
    }
  }

  /**
   A domain's torrents are as many as the sidebar shows beside it, every one announcing there: for
   every library in which each stale cached tracker is at least on the host of the first listed.
   */
  lemma CountsAsTheSidebar(w: Words, library: seq<Known>, sessionPaused: bool, host: string, tree: Tree)
    requires Shows(w, tree, FilterRows(library, sessionPaused))
    requires forall i | 0 <= i < |library| :: SameHost(w, library[i])
    ensures Domain(w, RowsOf(library, sessionPaused), host).torrents == Shown(tree, HostRow(host))
    ensures Domain(w, RowsOf(library, sessionPaused), host).announcing == Shown(tree, HostRow(host))
  {
    DomainCounts(w, library, sessionPaused, host);
    SidebarCounts(w, library, sessionPaused, host);
    AllAnnounceHere(w, RowsOf(library, sessionPaused), host);
    hide *;
    assert CountIn(w, FilterRows(library, sessionPaused), HostRow(host)) == Shown(tree, HostRow(host)) by {
      ShownCounts(w, tree, FilterRows(library, sessionPaused), HostRow(host));
    }
  }

  lemma ShownCounts(w: Words, tree: Tree, rows: seq<FilterRow>, row: TreeRow)
    requires Shows(w, tree, rows)
    ensures Shown(tree, row) == CountIn(w, rows, row)
  {
  }

  ghost predicate CountAlike(w: Words, library: seq<Known>, sessionPaused: bool) {
    forall host :: OnHost(w, library, host) == CountIn(w, FilterRows(library, sessionPaused), HostRow(host))
  }

  lemma OneMoreOnHost(w: Words, library: seq<Known>, k: Known, sessionPaused: bool, host: string)
    ensures OnHost(w, library + [k], host)
         == OnHost(w, library, host) + if w.hostOf(CurrentTracker(k.status.currentTracker, k.trackers)) == host then 1 else 0
    ensures CountIn(w, FilterRows(library + [k], sessionPaused), HostRow(host))
         == CountIn(w, FilterRows(library, sessionPaused), HostRow(host))
            + if w.hostOf(FilterRowOf(k, sessionPaused).tracker) == host then 1 else 0
  {
    assert (library + [k])[..|library|] == library;
    assert FilterRows(library + [k], sessionPaused)[..|library|] == FilterRows(library, sessionPaused);
  }

  /** And for one torrent more it needs to be: one the two put on different hosts sets the counts of both apart. */
  lemma OneOffSetsApart(w: Words, library: seq<Known>, k: Known, sessionPaused: bool)
    requires forall i | 0 <= i < |library| :: SameHost(w, library[i])
    ensures CountAlike(w, library + [k], sessionPaused) <==> SameHost(w, k)
  {
    var here := w.hostOf(CurrentTracker(k.status.currentTracker, k.trackers));
    var there := w.hostOf(FilterRowOf(k, sessionPaused).tracker);
    assert SameHost(w, k) <==> here == there;
    hide OnHost, CountIn, FilterRows, FilterRowOf, SameHost;
    forall host
      ensures OnHost(w, library, host) == CountIn(w, FilterRows(library, sessionPaused), HostRow(host))
    {
      SidebarCounts(w, library, sessionPaused, host);
    }
    forall host
      ensures OnHost(w, library + [k], host) == OnHost(w, library, host) + if here == host then 1 else 0
      ensures (CountIn(w, FilterRows(library + [k], sessionPaused), HostRow(host))
               == CountIn(w, FilterRows(library, sessionPaused), HostRow(host)) + if there == host then 1 else 0)
    {
      OneMoreOnHost(w, library, k, sessionPaused, host);
    }
    assert CountAlike(w, library + [k], sessionPaused) ==>
        OnHost(w, library + [k], here) == CountIn(w, FilterRows(library + [k], sessionPaused), HostRow(here));
  }

  /** What counting alike is worth: the window and the sidebar agree about every host. */
  lemma CountAlikeIff(w: Words, library: seq<Known>, sessionPaused: bool, tree: Tree)
    requires Shows(w, tree, FilterRows(library, sessionPaused))
    ensures CountAlike(w, library, sessionPaused)
       <==> forall host :: Domain(w, RowsOf(library, sessionPaused), host).torrents == Shown(tree, HostRow(host))
  {
    hide Shows, Shown, Domain, RowsOf, OnHost, CountIn;
    forall host
      ensures Domain(w, RowsOf(library, sessionPaused), host).torrents == OnHost(w, library, host)
      ensures Shown(tree, HostRow(host)) == CountIn(w, FilterRows(library, sessionPaused), HostRow(host))
    {
      DomainCounts(w, library, sessionPaused, host);
      ShownCounts(w, tree, FilterRows(library, sessionPaused), HostRow(host));
    }
  }

  // ------------------------------------------------------- against the rows

  /** A figure of a domain's torrents, added up. */
  function Over(w: Words, rows: seq<Row>, host: string, pick: Row -> int): int {
    if rows == [] then 0
    else
      var row := rows[|rows| - 1];
      Over(w, rows[..|rows| - 1], host, pick) + if w.hostOf(row.current) == host then pick(row) else 0
  }

  /** The soonest announce due among a domain's torrents, 0 when none is. */
  predicate Soonest(w: Words, rows: seq<Row>, host: string, due: int) {
    && (forall i | 0 <= i < |rows| && w.hostOf(rows[i].current) == host && rows[i].nextAnnounce > 0 ::
          0 < due <= rows[i].nextAnnounce)
    && (due != 0 ==> exists i | 0 <= i < |rows| :: w.hostOf(rows[i].current) == host && rows[i].nextAnnounce == due > 0)
  }

  lemma {:induction false} EntriesChangeNoFigure(w: Words, totals: Totals, entries: seq<TrackerEntry>, host: string)
    ensures var after := WithEntries(w, totals, entries, host);
            && after.size == totals.size && after.downloaded == totals.downloaded && after.uploaded == totals.uploaded
            && after.seeds == totals.seeds && after.peers == totals.peers
            && after.unregistered == totals.unregistered && after.nextAnnounce == totals.nextAnnounce
  {
    if entries != [] {
      EntriesChangeNoFigure(w, totals, entries[..|entries| - 1], host);
    }
  }

  /** A domain's figures are the sums over its torrents, nothing counting down for a swarm not heard of. */
  lemma {:induction false} DomainAddsUp(w: Words, rows: seq<Row>, host: string)
    ensures var d := Domain(w, rows, host);
            && d.size == Over(w, rows, host, (r: Row) => r.size)
            && d.downloaded == Over(w, rows, host, (r: Row) => r.downloaded)
            && d.uploaded == Over(w, rows, host, (r: Row) => r.uploaded)
            && d.seeds == Over(w, rows, host, (r: Row) => if r.seeds > 0 then r.seeds else 0)
            && d.peers == Over(w, rows, host, (r: Row) => if r.peers > 0 then r.peers else 0)
            && d.unregistered == Over(w, rows, host, (r: Row) => if SaysUnregistered(w, r.trackerStatus) then 1 else 0)
  {
    hide SaysUnregistered;
    if rows != [] {
      var front, row := rows[..|rows| - 1], rows[|rows| - 1];
      DomainAddsUp(w, front, host);
      EntriesChangeNoFigure(w, Domain(w, front, host).Add(w, row, true), row.trackers, host);
    }
  }

  lemma {:induction false} DomainIsDueSoonest(w: Words, rows: seq<Row>, host: string)
    ensures Soonest(w, rows, host, Domain(w, rows, host).nextAnnounce)
  {
    hide SaysUnregistered;
    if rows != [] {
      var front, row := rows[..|rows| - 1], rows[|rows| - 1];
      DomainIsDueSoonest(w, front, host);
      EntriesChangeNoFigure(w, Domain(w, front, host).Add(w, row, true), row.trackers, host);
      var was, now := Domain(w, front, host).nextAnnounce, Domain(w, rows, host).nextAnnounce;
      if now == was && was != 0 {
        var i :| 0 <= i < |front| && w.hostOf(front[i].current) == host && front[i].nextAnnounce == was > 0;
        assert rows[i] == front[i];
      } else if now != 0 {
        assert rows[|rows| - 1].nextAnnounce == now;
      }
      forall i | 0 <= i < |rows| && w.hostOf(rows[i].current) == host && rows[i].nextAnnounce > 0
        ensures 0 < now <= rows[i].nextAnnounce
      {
        if i < |front| {
          assert front[i] == rows[i];
        }
      }
    }
  }
}
