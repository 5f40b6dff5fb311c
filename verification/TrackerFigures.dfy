/** The trackers window against the library: every figure of a tab and every colour, from the pairs of a torrent and one of its trackers. */
module TrackerFigures {
  import opened Bytes
  import opened TorrentState
  import opened TrackerCache
  import opened Status
  import opened Sidebar
  import opened TrackerInfo

  /** A torrent of a domain with one of its trackers on the same domain. */
  datatype Pair = Pair(row: TrackerInfo.Row, entry: TrackerEntry)

  function PairsOf(w: Words, row: TrackerInfo.Row, entries: seq<TrackerEntry>, host: string): seq<Pair> {
    if entries == [] then []
    else
      var entry := entries[|entries| - 1];
      PairsOf(w, row, entries[..|entries| - 1], host) + if w.hostOf(entry.url) == host then [Pair(row, entry)] else []
  }

  function Pairs(w: Words, rows: seq<TrackerInfo.Row>, host: string): seq<Pair> {
    if rows == [] then []
    else
      var row := rows[|rows| - 1];
      Pairs(w, rows[..|rows| - 1], host) + if w.hostOf(row.current) == host then PairsOf(w, row, row.trackers, host) else []
  }

  /** What may be asked of a pair, and how often the answer is yes. */
  datatype Question = Listed | Announced | Works | Fails | Tried | Refused

  predicate Holds(w: Words, p: Pair, q: Question) {
    match q
    case Listed => true
    case Announced => p.row.current == p.entry.url
    case Works => p.entry.verified
    case Fails => !p.entry.verified && p.entry.fails != 0
    case Tried => p.entry.updating
    case Refused => p.row.current == p.entry.url && SaysUnregistered(w, p.row.trackerStatus)
  }

  /** How often among the pairs with this URL. */
  function Number(w: Words, pairs: seq<Pair>, url: string, q: Question): nat {
    if pairs == [] then 0
    else
      var last := pairs[|pairs| - 1];
      Number(w, pairs[..|pairs| - 1], url, q) + if last.entry.url == url && Holds(w, last, q) then 1 else 0
  }

  /** What the torrents with this URL come to, once for every time they list it. */
  function Amount(pairs: seq<Pair>, url: string): (int, int, int) {
    if pairs == [] then (0, 0, 0)
    else
      var last := pairs[|pairs| - 1];
      var (size, down, up) := Amount(pairs[..|pairs| - 1], url);
      if last.entry.url == url then (size + last.row.size, down + last.row.downloaded, up + last.row.uploaded) else (size, down, up)
  }

  /** The lowest tier this URL is listed in. */
  predicate Lowest(pairs: seq<Pair>, url: string, tier: nat) {
    && (forall i | 0 <= i < |pairs| && pairs[i].entry.url == url :: tier <= pairs[i].entry.tier)
    && (exists i | 0 <= i < |pairs| :: pairs[i].entry.url == url && pairs[i].entry.tier == tier)
  }

  ghost predicate ShowsAll(w: Words, tabs: map<string, Tab>, pairs: seq<Pair>) {
    forall url :: ShowsOne(w, tabs, pairs, url)
  }

  ghost predicate ShowsOne(w: Words, tabs: map<string, Tab>, pairs: seq<Pair>, url: string) {
    var t := if url in tabs then tabs[url].totals else Empty;
    && (url in tabs <==> Number(w, pairs, url, Listed) > 0)
    && t.torrents == Number(w, pairs, url, Listed)
    && t.announcing == Number(w, pairs, url, Announced)
    && t.working == Number(w, pairs, url, Works)
    && t.failing == Number(w, pairs, url, Fails)
    && t.updating == Number(w, pairs, url, Tried)
    && t.unregistered == Number(w, pairs, url, Refused)
    && (t.size, t.downloaded, t.uploaded) == Amount(pairs, url)
    && (url in tabs ==> Lowest(pairs, url, tabs[url].tier))
  }

  lemma NumberSnoc(w: Words, pairs: seq<Pair>, p: Pair, url: string)
    ensures forall q :: Number(w, pairs + [p], url, q) == Number(w, pairs, url, q) + if p.entry.url == url && Holds(w, p, q) then 1 else 0
    ensures var was := Amount(pairs, url);
            Amount(pairs + [p], url)
            == if p.entry.url == url then (was.0 + p.row.size, was.1 + p.row.downloaded, was.2 + p.row.uploaded) else was
  {
    hide Holds;
    assert (pairs + [p])[..|pairs|] == pairs;
  }

  lemma LowestSnoc(w: Words, pairs: seq<Pair>, p: Pair, url: string, tier: nat)
    requires p.entry.url == url
    ensures Lowest(pairs, url, tier) ==> Lowest(pairs + [p], url, if p.entry.tier < tier then p.entry.tier else tier)
    ensures Number(w, pairs, url, Listed) == 0 ==> Lowest(pairs + [p], url, p.entry.tier)
  {
    var more := pairs + [p];
    assert more[|pairs|] == p && forall i | 0 <= i < |pairs| :: more[i] == pairs[i];
    if Number(w, pairs, url, Listed) == 0 {
      NoneListed(w, pairs, url);
    }
    if Lowest(pairs, url, tier) {
      var i :| 0 <= i < |pairs| && pairs[i].entry.url == url && pairs[i].entry.tier == tier;
      assert more[i].entry.url == url && more[i].entry.tier == tier;
    }
  }

  lemma {:induction false} NoneListed(w: Words, pairs: seq<Pair>, url: string)
    requires Number(w, pairs, url, Listed) == 0
    ensures forall i | 0 <= i < |pairs| :: pairs[i].entry.url != url
  {
    if pairs != [] {
      NoneListed(w, pairs[..|pairs| - 1], url);
    }
  }

  lemma LowestElsewhere(pairs: seq<Pair>, p: Pair, url: string, tier: nat)
    requires p.entry.url != url && Lowest(pairs, url, tier)
    ensures Lowest(pairs + [p], url, tier)
  {
    var more := pairs + [p];
    assert more[|pairs|] == p && forall i | 0 <= i < |pairs| :: more[i] == pairs[i];
    var i :| 0 <= i < |pairs| && pairs[i].entry.url == url && pairs[i].entry.tier == tier;
    assert more[i].entry.url == url && more[i].entry.tier == tier;
  }

  lemma OneMorePair(w: Words, tabs: map<string, Tab>, pairs: seq<Pair>, row: TrackerInfo.Row, entry: TrackerEntry)
    requires ShowsAll(w, tabs, pairs)
    ensures ShowsAll(w, WithTab(w, tabs, row, entry), pairs + [Pair(row, entry)])
  {
    hide SaysUnregistered, Number, Amount, Lowest;
    var p, after := Pair(row, entry), WithTab(w, tabs, row, entry);
    forall url
      ensures ShowsOne(w, after, pairs + [p], url)
    {
      assert ShowsOne(w, tabs, pairs, url);
      NumberSnoc(w, pairs, p, url);
      if url == entry.url {
        LowestSnoc(w, pairs, p, url, if url in tabs then tabs[url].tier else entry.tier);
      } else if url in tabs {
        LowestElsewhere(pairs, p, url, tabs[url].tier);
      }
    }
  }

  lemma {:induction false} EntriesShow(w: Words, tabs: map<string, Tab>, pairs: seq<Pair>, row: TrackerInfo.Row, entries: seq<TrackerEntry>, host: string)
    requires ShowsAll(w, tabs, pairs)
    ensures ShowsAll(w, WithTabs(w, tabs, row, entries, host), pairs + PairsOf(w, row, entries, host))
  {
    hide ShowsAll, WithTab;
    if entries == [] {
      assert pairs + [] == pairs;
    } else {
      var front, entry := entries[..|entries| - 1], entries[|entries| - 1];
      EntriesShow(w, tabs, pairs, row, front, host);
      var sofar := PairsOf(w, row, front, host);
      if w.hostOf(entry.url) == host {
        OneMorePair(w, WithTabs(w, tabs, row, front, host), pairs + sofar, row, entry);
        Regrouped(pairs, sofar, [Pair(row, entry)]);
      } else {
        assert sofar + [] == sofar;
      }
    }
  }

  lemma NothingShown(w: Words)
    ensures ShowsAll(w, map[], [])
  {
  }

  /**
   Every figure of every tab, for every library: the torrents that list the URL, how many announce
   to it, how many times it works, fails or is being tried, whose torrents it turned away, what they
   come to, and the lowest tier.
   */
  lemma {:induction false} TabsShow(w: Words, rows: seq<TrackerInfo.Row>, host: string)
    ensures ShowsAll(w, Tabs(w, rows, host), Pairs(w, rows, host))
  {
    hide ShowsAll, WithTabs;
    if rows == [] {
      NothingShown(w);
    } else {
      var front, row := rows[..|rows| - 1], rows[|rows| - 1];
      TabsShow(w, front, host);
      EntriesShow(w, Tabs(w, front, host), Pairs(w, front, host), row, row.trackers, host);
      assert Pairs(w, front, host) + [] == Pairs(w, front, host);
    }
  }

  // --------------------------------------------------------------- colours

  /** Whether it is so of some pair, whatever its URL. */
  ghost predicate Anywhere(w: Words, pairs: seq<Pair>, q: Question) {
    exists i | 0 <= i < |pairs| :: Holds(w, pairs[i], q)
  }

  ghost predicate TurnedAway(w: Words, rows: seq<TrackerInfo.Row>, host: string) {
    exists i | 0 <= i < |rows| :: w.hostOf(rows[i].current) == host && SaysUnregistered(w, rows[i].trackerStatus)
  }

  ghost predicate Tells(w: Words, t: Totals, pairs: seq<Pair>) {
    (t.working > 0 <==> Anywhere(w, pairs, Works)) && (t.failing > 0 <==> Anywhere(w, pairs, Fails))
  }

  lemma TellsSnoc(w: Words, t: Totals, pairs: seq<Pair>, p: Pair)
    requires Tells(w, t, pairs)
    ensures Tells(w, t.AddEntry(p.entry), pairs + [p])
  {
    hide SaysUnregistered;
    var more := pairs + [p];
    assert more[|pairs|] == p && forall i | 0 <= i < |pairs| :: more[i] == pairs[i];
    forall q | Anywhere(w, pairs, q)
      ensures Anywhere(w, more, q)
    {
      var i :| 0 <= i < |pairs| && Holds(w, pairs[i], q);
      assert Holds(w, more[i], q);
    }
    assert forall q :: Holds(w, p, q) ==> Holds(w, more[|pairs|], q);
  }

  lemma {:induction false} EntriesTell(w: Words, t: Totals, pairs: seq<Pair>, row: TrackerInfo.Row, entries: seq<TrackerEntry>, host: string)
    requires Tells(w, t, pairs)
    ensures Tells(w, WithEntries(w, t, entries, host), pairs + PairsOf(w, row, entries, host))
    ensures WithEntries(w, t, entries, host).unregistered == t.unregistered
  {
    hide Tells, Totals.AddEntry;
    if entries == [] {
      assert pairs + [] == pairs;
    } else {
      var front, entry := entries[..|entries| - 1], entries[|entries| - 1];
      EntriesTell(w, t, pairs, row, front, host);
      var sofar := PairsOf(w, row, front, host);
      if w.hostOf(entry.url) == host {
        TellsSnoc(w, WithEntries(w, t, front, host), pairs + sofar, Pair(row, entry));
        Regrouped(pairs, sofar, [Pair(row, entry)]);
        EntryCounts(WithEntries(w, t, front, host), entry);
      } else {
        assert sofar + [] == sofar;
      }
    }
  }

  lemma AddingTells(w: Words, t: Totals, pairs: seq<Pair>, row: TrackerInfo.Row)
    requires Tells(w, t, pairs)
    ensures Tells(w, t.Add(w, row, true), pairs)
    ensures t.Add(w, row, true).unregistered == t.unregistered + if SaysUnregistered(w, row.trackerStatus) then 1 else 0
  {
    hide SaysUnregistered, Anywhere;
  }

  lemma {:induction false} DomainTells(w: Words, rows: seq<TrackerInfo.Row>, host: string)
    ensures Tells(w, Domain(w, rows, host), Pairs(w, rows, host))
    ensures Domain(w, rows, host).unregistered > 0 <==> TurnedAway(w, rows, host)
  {
    hide SaysUnregistered, WithEntries, Totals.Add;
    if rows != [] {
      var front, row := rows[..|rows| - 1], rows[|rows| - 1];
      DomainTells(w, front, host);
      hide Tells;
      TurnedAwaySnoc(w, rows, host);
      assert Pairs(w, front, host) + [] == Pairs(w, front, host);
      if w.hostOf(row.current) == host {
        AddingTells(w, Domain(w, front, host), Pairs(w, front, host), row);
        EntriesTell(w, Domain(w, front, host).Add(w, row, true), Pairs(w, front, host), row, row.trackers, host);
      }
    }
  }

  lemma TurnedAwaySnoc(w: Words, rows: seq<TrackerInfo.Row>, host: string)
    requires rows != []
    ensures var last := rows[|rows| - 1];
            TurnedAway(w, rows, host)
            <==> TurnedAway(w, rows[..|rows| - 1], host) || (w.hostOf(last.current) == host && SaysUnregistered(w, last.trackerStatus))
  {
    hide SaysUnregistered;
    var front := rows[..|rows| - 1];
    assert forall i | 0 <= i < |front| :: front[i] == rows[i];
    if TurnedAway(w, front, host) {
      var i :| 0 <= i < |front| && w.hostOf(front[i].current) == host && SaysUnregistered(w, front[i].trackerStatus);
      assert w.hostOf(rows[i].current) == host && SaysUnregistered(w, rows[i].trackerStatus);
    }
  }

  /**
   The colour of a domain, from the library: down when something fails and nothing works, a warning
   when something fails though something works, or nothing fails but a torrent was turned away, fine
   when something works and neither is so, and unknown when nothing is.
   */
  lemma ColourIff(w: Words, rows: seq<TrackerInfo.Row>, host: string)
    ensures var colour, pairs := Domain(w, rows, host).Judged(), Pairs(w, rows, host);
            var works, fails, away := Anywhere(w, pairs, Works), Anywhere(w, pairs, Fails), TurnedAway(w, rows, host);
            && (colour == Down <==> fails && !works)
            && (colour == Warning <==> (fails && works) || (!fails && away))
            && (colour == Fine <==> works && !fails && !away)
            && (colour == Unknown <==> !works && !fails && !away)
  {
    DomainTells(w, rows, host);
    hide Domain, Anywhere, TurnedAway;
  }

  // ------------------------------------------------ failures and states

  /** The worst failure count among the pairs that fail, 0 when none does. */
  ghost predicate Worst(w: Words, pairs: seq<Pair>, n: int) {
    && n >= 0 && (forall i | 0 <= i < |pairs| && Holds(w, pairs[i], Fails) :: pairs[i].entry.fails <= n)
    && (n > 0 ==> exists i | 0 <= i < |pairs| :: Holds(w, pairs[i], Fails) && pairs[i].entry.fails == n)
  }

  /** The first thing said by a pair that fails, of those that say something. */
  ghost predicate FirstSaid(w: Words, pairs: seq<Pair>, message: string) {
    if message == "" then forall i | 0 <= i < |pairs| :: !Complains(w, pairs[i])
    else exists i | 0 <= i < |pairs| ::
      Complains(w, pairs[i]) && pairs[i].entry.message == Just(message) && forall k | 0 <= k < i :: !Complains(w, pairs[k])
  }

  predicate Complains(w: Words, p: Pair) {
    Holds(w, p, Fails) && p.entry.message.Just? && p.entry.message.value != ""
  }

  lemma SaidSnoc(w: Words, t: Totals, pairs: seq<Pair>, p: Pair)
    requires FirstSaid(w, pairs, t.message)
    ensures FirstSaid(w, pairs + [p], t.AddEntry(p.entry).message)
  {
    hide SaysUnregistered;
    var more, now := pairs + [p], t.AddEntry(p.entry).message;
    assert more[|pairs|] == p && forall i | 0 <= i < |pairs| :: more[i] == pairs[i];
    if t.message != "" {
      var i :| 0 <= i < |pairs| && Complains(w, pairs[i]) && pairs[i].entry.message == Just(t.message)
               && forall k | 0 <= k < i :: !Complains(w, pairs[k]);
      assert Complains(w, more[i]) && forall k | 0 <= k < i :: !Complains(w, more[k]);
    } else if now != "" {
      assert Complains(w, more[|pairs|]);
    }
  }

  /** How many torrents of the domain are in a state. */
  function InState(w: Words, rows: seq<TrackerInfo.Row>, host: string, state: State): nat {
    if rows == [] then 0
    else
      var row := rows[|rows| - 1];
      InState(w, rows[..|rows| - 1], host, state) + if w.hostOf(row.current) == host && row.state == state then 1 else 0
  }

  lemma WorstSnoc(w: Words, t: Totals, pairs: seq<Pair>, p: Pair)
    requires Worst(w, pairs, t.fails)
    ensures Worst(w, pairs + [p], t.AddEntry(p.entry).fails) && t.AddEntry(p.entry).states == t.states
  {
    hide SaysUnregistered;
    var more, now := pairs + [p], t.AddEntry(p.entry).fails;
    assert more[|pairs|] == p && forall i | 0 <= i < |pairs| :: more[i] == pairs[i];
    if now > 0 && now == t.fails {
      var i :| 0 <= i < |pairs| && Holds(w, pairs[i], Fails) && pairs[i].entry.fails == now;
      assert Holds(w, more[i], Fails) && more[i].entry.fails == now;
    } else if now > 0 {
      assert Holds(w, more[|pairs|], Fails);
    }
  }

  lemma {:induction false} EntriesWorst(
    w: Words, t: Totals, pairs: seq<Pair>, row: TrackerInfo.Row, entries: seq<TrackerEntry>, host: string)
    requires Worst(w, pairs, t.fails)
    requires FirstSaid(w, pairs, t.message)
    ensures Worst(w, pairs + PairsOf(w, row, entries, host), WithEntries(w, t, entries, host).fails)
    ensures FirstSaid(w, pairs + PairsOf(w, row, entries, host), WithEntries(w, t, entries, host).message)
    ensures WithEntries(w, t, entries, host).states == t.states
  {
    hide Worst, FirstSaid, Totals.AddEntry;
    if entries == [] {
      assert pairs + [] == pairs;
    } else {
      var front, entry := entries[..|entries| - 1], entries[|entries| - 1];
      EntriesWorst(w, t, pairs, row, front, host);
      var sofar := PairsOf(w, row, front, host);
      if w.hostOf(entry.url) == host {
        WorstSnoc(w, WithEntries(w, t, front, host), pairs + sofar, Pair(row, entry));
        SaidSnoc(w, WithEntries(w, t, front, host), pairs + sofar, Pair(row, entry));
        Regrouped(pairs, sofar, [Pair(row, entry)]);
      } else {
        assert sofar + [] == sofar;
      }
    }
  }

  lemma AddingState(w: Words, t: Totals, row: TrackerInfo.Row, state: State)
    ensures var now := t.Add(w, row, true);
            now.fails == t.fails && now.message == t.message && At(now.states, state) == At(t.states, state) + if row.state == state then 1 else 0
  {
    hide SaysUnregistered;
  }

  /** A domain shows the worst failure count there is, the first thing said about one, and how many of its torrents are in each state. */
  lemma {:induction false} DomainShowsWorst(w: Words, rows: seq<TrackerInfo.Row>, host: string)
    ensures Worst(w, Pairs(w, rows, host), Domain(w, rows, host).fails)
    ensures FirstSaid(w, Pairs(w, rows, host), Domain(w, rows, host).message)
    ensures forall state :: At(Domain(w, rows, host).states, state) == InState(w, rows, host, state)
  {
    hide SaysUnregistered, WithEntries, Totals.Add, At;
    if rows == [] {
      NoStates();
    } else {
      var front, row := rows[..|rows| - 1], rows[|rows| - 1];
      DomainShowsWorst(w, front, host);
      hide Worst, FirstSaid;
      assert Pairs(w, front, host) + [] == Pairs(w, front, host);
      if w.hostOf(row.current) == host {
        forall state
          ensures var now := Domain(w, front, host).Add(w, row, true);
                  At(now.states, state) == At(Domain(w, front, host).states, state) + if row.state == state then 1 else 0
        {
          AddingState(w, Domain(w, front, host), row, state);
        }
        AddingState(w, Domain(w, front, host), row, row.state);
        EntriesWorst(w, Domain(w, front, host).Add(w, row, true), Pairs(w, front, host), row, row.trackers, host);
      }
    }
  }

  lemma NoStates()
    ensures forall state: State :: At(Empty.states, state) == 0
  {
  }
}
