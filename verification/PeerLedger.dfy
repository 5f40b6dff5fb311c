/** What each peer has done, accumulated by difference from counters that reset. */
module PeerLedger {
  import opened Bytes

  const CAPACITY: nat := 20_000

  datatype Sample = Sample(sent: int, received: int)

  datatype Record = Record(
    sent: int,
    received: int,
    firstSeen: real,
    lastSeen: real,
    client: string,
    torrents: set<string>,
    contents: map<string, set<string>>,
    lastSample: map<string, Sample>)
  {
    /** The running sample of a torrent, nothing moved if there is none. */
    function Latest(torrent: string): Sample {
      if torrent in lastSample then lastSample[torrent] else Sample(0, 0)
    }
  }

  function Unseen(now: real): Record {
    Record(0, 0, now, 0.0, "", {}, map[], map[])
  }

  datatype Observation = Observation(
    address: string,
    client: string,
    torrent: string,
    content: string,
    sent: int,
    received: int)

  /** A counter that went backwards belongs to a new connection, and the whole of it is new. */
  function Advanced(previous: int, current: int): int {
    if current < previous then (if current > 0 then current else 0) else current - previous
  }

  // ---------------------------------------------------------------- trails

  /** What happened to one address: a sample of one of its connections, or the connections forgotten. */
  datatype Event = Seen(torrent: string, connection: nat, sent: int, received: int) | Parted

  datatype Direction = Sent | Received

  function Counter(e: Event, direction: Direction): int
    requires e.Seen?
  {
    if direction.Sent? then e.sent else e.received
  }

  /** The first event that says something about this torrent's running sample. */
  function NextMark(trail: seq<Event>, torrent: string): Option<Event> {
    if trail == [] then Nothing
    else if trail[0].Parted? || trail[0].torrent == torrent then Just(trail[0])
    else NextMark(trail[1..], torrent)
  }

  /** The first sample of this torrent. */
  function NextSeen(trail: seq<Event>, torrent: string): Option<Event> {
    if trail == [] then Nothing
    else if trail[0].Seen? && trail[0].torrent == torrent then Just(trail[0])
    else NextSeen(trail[1..], torrent)
  }

  /** The first sample of a trail ends a run: nothing follows it, or a forgetting, or a smaller sample. */
  predicate EndsRun(trail: seq<Event>, direction: Direction)
    requires trail != [] && trail[0].Seen?
  {
    match NextMark(trail[1..], trail[0].torrent)
    case Just(Seen(_, _, _, _)) =>
      Counter(NextMark(trail[1..], trail[0].torrent).value, direction) < Counter(trail[0], direction)
    case _ => true
  }

  /** The last samples of all the runs, added up. */
  function RunEnds(trail: seq<Event>, direction: Direction): int {
    if trail == [] then 0
    else
      (if trail[0].Seen? && EndsRun(trail, direction) then Counter(trail[0], direction) else 0)
        + RunEnds(trail[1..], direction)
  }

  predicate NonNegative(trail: seq<Event>) {
    forall i | 0 <= i < |trail| && trail[i].Seen? :: trail[i].sent >= 0 && trail[i].received >= 0
  }

  /** A torrent's sample since the last forgetting, if it has been sampled since. */
  function Running(trail: seq<Event>, torrent: string): Option<Sample> {
    if trail == [] then Nothing
    else
      var last := trail[|trail| - 1];
      if last.Parted? then Nothing
      else if last.torrent == torrent then Just(Sample(last.sent, last.received))
      else Running(trail[..|trail| - 1], torrent)
  }

  // ---------------------------------------------------------------- ledger

  /** A record's books: its totals are the run ends of its trail, its samples the running ones. */
  ghost predicate Accounts(record: Record, trail: seq<Event>) {
    && (NonNegative(trail) ==> record.sent == RunEnds(trail, Sent) && record.received == RunEnds(trail, Received))
    && (forall torrent ::
          if torrent in record.lastSample then Running(trail, torrent) == Just(record.lastSample[torrent])
          else Running(trail, torrent).Nothing?)
    && (forall torrent :: torrent in record.torrents <==> NextSeen(trail, torrent).Just?)
  }

  /** Every record accounts for its trail. */
  ghost predicate AllAccount(peers: map<string, Record>, trails: map<string, seq<Event>>) {
    trails.Keys == peers.Keys && forall address | address in peers :: Accounts(peers[address], trails[address])
  }

  /** A record with one sample folded in: the difference, never the counter. */
  ghost predicate Folded(was: Record, seen: Observation, now: real, record: Record) {
    && record.firstSeen == was.firstSeen && record.lastSeen == now
    && record.client == (if seen.client == "" then was.client else seen.client)
    && record.torrents == was.torrents + {seen.torrent}
    && record.contents.Keys == was.contents.Keys + (if seen.content == "" then {} else {seen.content})
    && (forall content | content in record.contents ::
          record.contents[content]
          == (if content in was.contents then was.contents[content] else {})
             + (if content == seen.content != "" then {seen.torrent} else {}))
    && record.sent == was.sent + Advanced(was.Latest(seen.torrent).sent, seen.sent)
    && record.received == was.received + Advanced(was.Latest(seen.torrent).received, seen.received)
    && record.lastSample == was.lastSample[seen.torrent := Sample(seen.sent, seen.received)]
  }

  method Fold(was: Record, seen: Observation, now: real) returns (record: Record)
    ensures Folded(was, seen, now, record)
  {
    record := was.(lastSeen := now);
    if seen.client != "" {
      record := record.(client := seen.client);
    }
    record := record.(torrents := record.torrents + {seen.torrent});
    if seen.content != "" {
      var carriers := if seen.content in record.contents then record.contents[seen.content] else {};
      record := record.(contents := record.contents[seen.content := carriers + {seen.torrent}]);
    }
    var previous := record.Latest(seen.torrent);
    record := record.(sent := record.sent + Advanced(previous.sent, seen.sent));
    record := record.(received := record.received + Advanced(previous.received, seen.received));
    record := record.(lastSample := record.lastSample[seen.torrent := Sample(seen.sent, seen.received)]);
  }

  /** A fresh record is given the client's name before the sample is folded in, which makes no difference. */
  lemma FoldedUnseen(seen: Observation, now: real, record: Record)
    requires Folded(Unseen(now).(client := seen.client), seen, now, record)
    ensures Folded(Unseen(now), seen, now, record)
  {
    hide Advanced;
  }

  lemma FoldAccounts(was: Record, seen: Observation, now: real, record: Record, trail: seq<Event>, event: Event)
    requires Accounts(was, trail) && event.Seen?
    requires event.torrent == seen.torrent && event.sent == seen.sent && event.received == seen.received
    requires Folded(was, seen, now, record)
    ensures Accounts(record, trail + [event])
  {
    hide Accounts, Advanced;
    SampleAccountsFor(was, record, trail, event);
  }

  class Ledger {
    var peers: map<string, Record>
    /** Per address, everything since it was last taken into the ledger. */
    ghost var trails: map<string, seq<Event>>

    constructor ()
      ensures Valid() && peers == map[]
    {
      peers := map[];
      trails := map[];
    }

    ghost predicate Valid()
      reads this
    {
      AllAccount(peers, trails)
    }

    /** Folds one sample in: the difference, never the counter. */
    method Observe(seen: Observation, now: real, ghost connection: nat)
      requires Valid()
      modifies this
      ensures Valid()
      ensures trails == old(trails)[seen.address :=
                (if seen.address in old(trails) then old(trails)[seen.address] else [])
                + [Seen(seen.torrent, connection, seen.sent, seen.received)]]
      ensures peers.Keys == old(peers).Keys + {seen.address}
      ensures forall address | address in old(peers) && address != seen.address :: peers[address] == old(peers)[address]
      ensures Folded(if seen.address in old(peers) then old(peers)[seen.address] else Unseen(now), seen, now, peers[seen.address])
    {
      hide AllAccount, Accounts, Folded, Advanced, Unseen;
      ghost var trail := if seen.address in trails then trails[seen.address] else [];
      ghost var event := Seen(seen.torrent, connection, seen.sent, seen.received);
      var was := if seen.address in peers then peers[seen.address] else Unseen(now);
      WasAccounted(peers, trails, seen.address, now);
      var record := Fold(if seen.address in peers then was else was.(client := seen.client), seen, now);
      if seen.address !in peers {
        FoldedUnseen(seen, now, record);
      }
      FoldAccounts(was, seen, now, record, trail, event);
      ghost var before, trailsBefore := peers, trails;
      peers := peers[seen.address := record];
      trails := trails[seen.address := trail + [event]];
      OneMoreAccounted(before, trailsBefore, seen.address, record, trail + [event]);
    }

    /** Forgets what each connection had moved, without forgetting the totals. */
    method ForgetConnections()
      requires Valid()
      modifies this
      ensures Valid()
      ensures peers.Keys == old(peers).Keys
      ensures forall address | address in peers ::
                && peers[address] == old(peers)[address].(lastSample := map[])
                && trails[address] == old(trails)[address] + [Parted]
    {
      peers := map address | address in peers :: peers[address].(lastSample := map[]);
      trails := map address | address in trails :: trails[address] + [Parted];
      forall address | address in peers
        ensures Accounts(peers[address], trails[address])
      {
        PartingAccounts(old(trails)[address]);
      }
    }

    /** Drops addresses nobody has seen for a while, and the oldest beyond the cap. */
    method ForgetOld(now: real, ttlSeconds: real) returns (dropped: nat)
      requires Valid()
      modifies this
      ensures Valid()
      ensures peers.Keys <= old(peers).Keys && dropped == |old(peers)| - |peers|
      ensures forall address | address in peers ::
                peers[address] == old(peers)[address] && trails[address] == old(trails)[address]
      ensures var live := Live(old(peers), now, ttlSeconds);
              && peers.Keys <= live
              && (forall address | address in old(peers) :: address in live <==> now - old(peers)[address].lastSeen < ttlSeconds)
              && (|live| <= 20_000 ==> peers.Keys == live)
              && (|live| > 20_000 ==> |peers| == 20_000)
              && (forall kept, gone | kept in peers.Keys && gone in live && gone !in peers.Keys ::
                    old(peers)[gone].lastSeen <= old(peers)[kept].lastSeen)
    {
      LiveIff(peers, now, ttlSeconds);
      hide Accounts, Live, AllAccount;
      var before := |peers|;
      var left := Retained(peers, now, ttlSeconds);
      FewerAccount(peers, trails, left);
      trails := map address | address in trails && address in left :: trails[address];
      peers := left;
      dropped := before - |peers|;
    }
  }

  function Live(peers: map<string, Record>, now: real, ttlSeconds: real): set<string> {
    set address | address in peers && now - peers[address].lastSeen < ttlSeconds
  }

  lemma LiveIff(peers: map<string, Record>, now: real, ttlSeconds: real)
    ensures forall address | address in peers :: address in Live(peers, now, ttlSeconds) <==> now - peers[address].lastSeen < ttlSeconds
  {
  }

  /** The records still in time, without the longest unseen of them beyond the capacity. */
  method Retained(peers: map<string, Record>, now: real, ttlSeconds: real) returns (left: map<string, Record>)
    ensures left.Keys <= peers.Keys && |left| <= |peers|
    ensures forall address | address in left :: left[address] == peers[address]
    ensures var live := Live(peers, now, ttlSeconds);
            && left.Keys <= live
            && (|live| <= CAPACITY ==> left.Keys == live)
            && (|live| > CAPACITY ==> |left| == CAPACITY)
            && (forall kept, gone | kept in left.Keys && gone in live && gone !in left.Keys ::
                  peers[gone].lastSeen <= peers[kept].lastSeen)
  {
    left := map address | address in peers && now - peers[address].lastSeen < ttlSeconds :: peers[address];
    assert left.Keys == Live(peers, now, ttlSeconds);
    CardinalityOfKeys(left);
    if |left| > CAPACITY {
      left := WithoutOldest(left, |left| - CAPACITY);
      CardinalityOfKeys(left);
    }
    CardinalityOfKeys(peers);
    SubsetIsNoLarger(left.Keys, peers.Keys);
  }

  lemma FewerAccount(peers: map<string, Record>, trails: map<string, seq<Event>>, left: map<string, Record>)
    requires AllAccount(peers, trails) && left.Keys <= peers.Keys
    requires forall address | address in left :: left[address] == peers[address]
    ensures AllAccount(left, map address | address in trails && address in left :: trails[address])
    ensures forall address | address in left :: address in trails
  {
    hide Accounts;
  }

  // --------------------------------------------------------- keeping books

  lemma {:induction false} MarkSnoc(trail: seq<Event>, event: Event, torrent: string)
    ensures NextMark(trail + [event], torrent)
         == if NextMark(trail, torrent).Just? then NextMark(trail, torrent)
            else if event.Parted? || event.torrent == torrent then Just(event) else Nothing
  {
    if trail != [] {
      assert (trail + [event])[1..] == trail[1..] + [event];
      MarkSnoc(trail[1..], event, torrent);
    }
  }

  lemma {:induction false} SeenSnoc(trail: seq<Event>, event: Event, torrent: string)
    ensures NextSeen(trail + [event], torrent)
         == if NextSeen(trail, torrent).Just? then NextSeen(trail, torrent)
            else if event.Seen? && event.torrent == torrent then Just(event) else Nothing
  {
    if trail != [] {
      assert (trail + [event])[1..] == trail[1..] + [event];
      SeenSnoc(trail[1..], event, torrent);
    }
  }

  /** The running sample does not depend on what came before something was marked. */
  lemma {:induction false} RunningFromFront(trail: seq<Event>, torrent: string)
    requires trail != []
    ensures Running(trail, torrent)
         == if NextMark(trail[1..], torrent).Just? then Running(trail[1..], torrent)
            else if trail[0].Seen? && trail[0].torrent == torrent then Just(Sample(trail[0].sent, trail[0].received))
            else Nothing
    decreases |trail|
  {
    var front, last := trail[..|trail| - 1], trail[|trail| - 1];
    if |trail| > 1 {
      RunningFromFront(front, torrent);
      assert front[1..] + [last] == trail[1..];
      MarkSnoc(front[1..], last, torrent);
      assert trail[1..][..|trail| - 2] == front[1..];
    }
  }

  lemma {:induction false} RunEndsSnoc(trail: seq<Event>, event: Event, direction: Direction)
    requires NonNegative(trail + [event]) && event.Seen?
    ensures var running := Running(trail, event.torrent);
            var previous := if running.Nothing? then 0
                            else if direction.Sent? then running.value.sent else running.value.received;
            RunEnds(trail + [event], direction) == RunEnds(trail, direction) + Advanced(previous, Counter(event, direction))
  {
    if trail == [] {
      assert (trail + [event])[1..] == [];
    } else {
      var rest := trail[1..];
      assert (trail + [event])[1..] == rest + [event];
      assert NonNegative(rest + [event]);
      RunEndsSnoc(rest, event, direction);
      RunningFromFront(trail, event.torrent);
      if trail[0].Seen? {
        MarkSnoc(rest, event, trail[0].torrent);
      }
      if NextMark(rest, event.torrent).Nothing? {
        UnmarkedIsNotRunning(rest, event.torrent);
      }
      assert trail[0].Seen? ==> (trail + [event])[0].sent >= 0 && (trail + [event])[0].received >= 0;
    }
  }

  lemma {:induction false} UnmarkedIsNotRunning(trail: seq<Event>, torrent: string)
    requires NextMark(trail, torrent).Nothing?
    ensures Running(trail, torrent).Nothing?
    decreases |trail|
  {
    if trail != [] {
      var front, last := trail[..|trail| - 1], trail[|trail| - 1];
      assert trail == front + [last];
      MarkSnoc(front, last, torrent);
      UnmarkedIsNotRunning(front, torrent);
    }
  }

  /** Forgetting the connections ends every run and changes no total. */
  lemma {:induction false} RunEndsParted(trail: seq<Event>, direction: Direction)
    ensures RunEnds(trail + [Parted], direction) == RunEnds(trail, direction)
  {
    if trail == [] {
      assert (trail + [Parted])[1..] == [];
    } else {
      assert (trail + [Parted])[1..] == trail[1..] + [Parted];
      RunEndsParted(trail[1..], direction);
      if trail[0].Seen? {
        MarkSnoc(trail[1..], Parted, trail[0].torrent);
      }
    }
  }

  /** What one more sample does to everything the books are made of. */
  lemma SampleAccounts(trail: seq<Event>, event: Event, previous: Sample)
    requires event.Seen?
    requires previous == var running := Running(trail, event.torrent); if running.Just? then running.value else Sample(0, 0)
    ensures NonNegative(trail + [event]) ==>
              && NonNegative(trail)
              && RunEnds(trail + [event], Sent) == RunEnds(trail, Sent) + Advanced(previous.sent, event.sent)
              && RunEnds(trail + [event], Received) == RunEnds(trail, Received) + Advanced(previous.received, event.received)
    ensures forall torrent ::
              (Running(trail + [event], torrent)
               == if torrent == event.torrent then Just(Sample(event.sent, event.received)) else Running(trail, torrent))
    ensures forall torrent ::
              NextSeen(trail + [event], torrent).Just? <==> NextSeen(trail, torrent).Just? || torrent == event.torrent
  {
    if NonNegative(trail + [event]) {
      RunEndsSnoc(trail, event, Sent);
      RunEndsSnoc(trail, event, Received);
      forall i | 0 <= i < |trail| && trail[i].Seen?
        ensures trail[i].sent >= 0 && trail[i].received >= 0
      {
        assert (trail + [event])[i] == trail[i];
      }
    }
    assert (trail + [event])[..|trail|] == trail;
    forall torrent
      ensures NextSeen(trail + [event], torrent).Just? <==> NextSeen(trail, torrent).Just? || torrent == event.torrent
    {
      SeenSnoc(trail, event, torrent);
    }
  }

  lemma NothingAccounts(record: Record)
    requires record.sent == 0 && record.received == 0 && record.torrents == {} && record.lastSample == map[]
    ensures Accounts(record, [])
  {
  }

  lemma WasAccounted(peers: map<string, Record>, trails: map<string, seq<Event>>, address: string, now: real)
    requires AllAccount(peers, trails)
    ensures peers.Keys == trails.Keys
    ensures address in peers ==> Accounts(peers[address], trails[address])
    ensures address !in peers ==> Accounts(Unseen(now), [])
  {
    NothingAccounts(Unseen(now));
    hide Accounts;
  }

  lemma OneMoreAccounted(
    peers: map<string, Record>, trails: map<string, seq<Event>>, address: string, record: Record, trail: seq<Event>)
    requires AllAccount(peers, trails) && Accounts(record, trail)
    ensures AllAccount(peers[address := record], trails[address := trail])
  {
    hide Accounts;
  }

  lemma SampleAccountsFor(was: Record, now: Record, trail: seq<Event>, event: Event)
    requires Accounts(was, trail) && event.Seen?
    requires var previous := if event.torrent in was.lastSample then was.lastSample[event.torrent] else Sample(0, 0);
             && now.sent == was.sent + Advanced(previous.sent, event.sent)
             && now.received == was.received + Advanced(previous.received, event.received)
    requires now.torrents == was.torrents + {event.torrent}
    requires now.lastSample == was.lastSample[event.torrent := Sample(event.sent, event.received)]
    ensures Accounts(now, trail + [event])
  {
    hide RunEnds, Running, NextSeen, Advanced;
    SampleAccounts(trail, event, if event.torrent in was.lastSample then was.lastSample[event.torrent] else Sample(0, 0));
  }

  lemma PartingAccounts(trail: seq<Event>)
    ensures NonNegative(trail + [Parted]) ==> NonNegative(trail)
    ensures forall direction :: RunEnds(trail + [Parted], direction) == RunEnds(trail, direction)
    ensures forall torrent :: Running(trail + [Parted], torrent).Nothing?
    ensures forall torrent :: NextSeen(trail + [Parted], torrent).Just? <==> NextSeen(trail, torrent).Just?
  {
    forall i | 0 <= i < |trail|
      ensures (trail + [Parted])[i] == trail[i]
    {
    }
    forall direction
      ensures RunEnds(trail + [Parted], direction) == RunEnds(trail, direction)
    {
      RunEndsParted(trail, direction);
    }
    forall torrent
      ensures NextSeen(trail + [Parted], torrent).Just? <==> NextSeen(trail, torrent).Just?
    {
      SeenSnoc(trail, Parted, torrent);
    }
  }

  // -------------------------------------------------------------- eviction

  function Firsts(s: seq<string>, n: nat): set<string>
    requires n <= |s|
  {
    set i | 0 <= i < n :: s[i]
  }

  predicate Distinct(s: seq<string>) {
    forall i, j | 0 <= i < j < |s| :: s[i] != s[j]
  }

  predicate ByAge(peers: map<string, Record>, s: seq<string>)
    requires forall i | 0 <= i < |s| :: s[i] in peers
  {
    forall i, j | 0 <= i < j < |s| :: peers[s[i]].lastSeen <= peers[s[j]].lastSeen
  }

  lemma CardinalityOfKeys<V>(m: map<string, V>)
    ensures |m| == |m.Keys|
  {
  }

  lemma SubsetIsNoLarger(a: set<string>, b: set<string>)
    requires a <= b
    ensures |a| <= |b|
  {
    if a != {} {
      var x :| x in a;
      SubsetIsNoLarger(a - {x}, b - {x});
    }
  }

  lemma {:induction false} DistinctFills(s: seq<string>, all: set<string>)
    requires Distinct(s) && all == Firsts(s, |s|)
    ensures |all| == |s|
    decreases |s|
  {
    if s != [] {
      var front, last := s[..|s| - 1], s[|s| - 1];
      assert Firsts(front, |front|) == all - {last};
      DistinctFills(front, all - {last});
    }
  }

  function Inserted(s: seq<string>, at: nat, address: string): seq<string>
    requires at <= |s|
  {
    s[..at] + [address] + s[at..]
  }

  lemma InsertedFirsts(s: seq<string>, at: nat, address: string)
    requires at <= |s|
    ensures Firsts(Inserted(s, at, address), |s| + 1) == Firsts(s, |s|) + {address}
  {
    var t := Inserted(s, at, address);
    forall x | x in Firsts(s, |s|) + {address}
      ensures x in Firsts(t, |t|)
    {
      if x == address {
        assert t[at] == x;
      } else {
        var i :| 0 <= i < |s| && s[i] == x;
        assert t[if i < at then i else i + 1] == x;
      }
    }
    forall x | x in Firsts(t, |t|)
      ensures x in Firsts(s, |s|) + {address}
    {
      var i :| 0 <= i < |t| && t[i] == x;
      assert i != at ==> s[if i < at then i else i - 1] == x;
    }
  }

  lemma InsertedStaysSorted(peers: map<string, Record>, s: seq<string>, at: nat, address: string)
    requires at <= |s| && address in peers && address !in Firsts(s, |s|)
    requires Distinct(s) && (forall i | 0 <= i < |s| :: s[i] in peers) && ByAge(peers, s)
    requires forall i | 0 <= i < at :: peers[s[i]].lastSeen <= peers[address].lastSeen
    requires forall i | at <= i < |s| :: peers[address].lastSeen <= peers[s[i]].lastSeen
    ensures var t := Inserted(s, at, address);
            Distinct(t) && (forall i | 0 <= i < |t| :: t[i] in peers) && ByAge(peers, t)
  {
    var t := Inserted(s, at, address);
    forall i | 0 <= i < |t|
      ensures t[i] == if i < at then s[i] else if i == at then address else s[i - 1]
    {
    }
    forall i | 0 <= i < |s|
      ensures s[i] != address
    {
      assert s[i] in Firsts(s, |s|);
    }
  }

  /** The addresses, the longest unseen first; which of two equally old ones leads is nobody's business. */
  method SortByAge(peers: map<string, Record>) returns (s: seq<string>)
    ensures Distinct(s) && Firsts(s, |s|) == peers.Keys
    ensures forall i | 0 <= i < |s| :: s[i] in peers
    ensures ByAge(peers, s)
  {
    hide Inserted, Firsts;
    s := [];
    var left := peers.Keys;
    NoneFirst(s);
    while left != {}
      invariant left <= peers.Keys && Distinct(s) && Firsts(s, |s|) == peers.Keys - left
      invariant forall i | 0 <= i < |s| :: s[i] in peers
      invariant ByAge(peers, s)
      decreases |left|
    {
      var address :| address in left;
      var at := 0;
      while at < |s| && peers[s[at]].lastSeen <= peers[address].lastSeen
        invariant at <= |s|
        invariant forall i | 0 <= i < at :: peers[s[i]].lastSeen <= peers[address].lastSeen
      {
        at := at + 1;
      }
      InsertedFirsts(s, at, address);
      InsertedStaysSorted(peers, s, at, address);
      InsertedLength(s, at, address);
      s := Inserted(s, at, address);
      left := left - {address};
    }
  }

  lemma NoneFirst(s: seq<string>)
    ensures Firsts(s, 0) == {}
  {
  }

  lemma InsertedLength(s: seq<string>, at: nat, address: string)
    requires at <= |s|
    ensures |Inserted(s, at, address)| == |s| + 1
  {
  }

  lemma OneMoreFirst(s: seq<string>, i: nat)
    requires i < |s| && Distinct(s)
    ensures Firsts(s, i + 1) == Firsts(s, i) + {s[i]} && s[i] !in Firsts(s, i)
    ensures s[i] in Firsts(s, |s|)
  {
  }

  lemma OldestGone(peers: map<string, Record>, byAge: seq<string>, surplus: nat, kept: string, gone: string)
    requires surplus <= |byAge| && (forall i | 0 <= i < |byAge| :: byAge[i] in peers) && ByAge(peers, byAge)
    requires kept in Firsts(byAge, |byAge|) - Firsts(byAge, surplus) && gone in Firsts(byAge, surplus)
    ensures peers[gone].lastSeen <= peers[kept].lastSeen
  {
    var i :| 0 <= i < surplus && byAge[i] == gone;
    var j :| 0 <= j < |byAge| && byAge[j] == kept;
    assert byAge[j] in Firsts(byAge, surplus) <== j < surplus;
  }

  /** The ledger without the `surplus` addresses nobody has seen the longest. */
  method WithoutOldest(peers: map<string, Record>, surplus: nat) returns (left: map<string, Record>)
    requires surplus <= |peers|
    ensures left.Keys <= peers.Keys && |left.Keys| == |peers| - surplus
    ensures forall address | address in left :: left[address] == peers[address]
    ensures forall kept, gone | kept in left && gone in peers && gone !in left ::
              peers[gone].lastSeen <= peers[kept].lastSeen
  {
    hide Firsts, ByAge;
    left := peers;
    var byAge := SortByAge(peers);
    DistinctFills(byAge, peers.Keys);
    CardinalityOfKeys(peers);
    NoneFirst(byAge);
    for i := 0 to surplus
      invariant left.Keys == peers.Keys - Firsts(byAge, i)
      invariant |left.Keys| == |peers| - i
      invariant forall address | address in left :: left[address] == peers[address]
    {
      OneMoreFirst(byAge, i);
      assert (left - {byAge[i]}).Keys == left.Keys - {byAge[i]};
      left := left - {byAge[i]};
    }
    forall kept, gone | kept in left && gone in peers && gone !in left
      ensures peers[gone].lastSeen <= peers[kept].lastSeen
    {
      OldestGone(peers, byAge, surplus, kept, gone);
    }
  }

  /** Totals only grow, whatever is sampled and however often the connections are forgotten. */
  lemma TotalsOnlyGrow(trail: seq<Event>, event: Event, direction: Direction)
    requires NonNegative(trail + [event])
    ensures RunEnds(trail, direction) <= RunEnds(trail + [event], direction)
  {
    if event.Seen? {
      assert (trail + [event])[|trail|] == event;
      RunEndsSnoc(trail, event, direction);
    } else {
      RunEndsParted(trail, direction);
    }
  }
}
