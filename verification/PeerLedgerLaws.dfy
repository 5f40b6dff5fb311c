/**
 What the ledger claims against what was moved: to the byte for every trace, sample by sample,
 and the exact condition under which a record claims too much.
 */
module PeerLedgerLaws {
  import opened Bytes
  import opened PeerLedger

  // ------------------------------------------------------------ what moved

  predicate IsOf(e: Event, torrent: string, connection: nat) {
    e.Seen? && e.torrent == torrent && e.connection == connection
  }

  /** Whether the first sample is the last of its connection. */
  predicate EndsConnection(trail: seq<Event>)
    requires trail != [] && trail[0].Seen?
  {
    forall i | 0 < i < |trail| :: !IsOf(trail[i], trail[0].torrent, trail[0].connection)
  }

  /** What the connections sampled moved: the last counter of each, however their samples are interleaved. */
  function Moved(trail: seq<Event>, direction: Direction): int {
    if trail == [] then 0
    else
      (if trail[0].Seen? && EndsConnection(trail) then Counter(trail[0], direction) else 0)
      + Moved(trail[1..], direction)
  }

  /** The last counter of one connection, 0 before its first sample. */
  function Own(trail: seq<Event>, torrent: string, connection: nat, direction: Direction): int {
    if trail == [] then 0
    else
      var last := trail[|trail| - 1];
      if IsOf(last, torrent, connection) then Counter(last, direction)
      else Own(trail[..|trail| - 1], torrent, connection, direction)
  }

  /** The counter the ledger takes the next difference from. */
  function Latest(trail: seq<Event>, torrent: string, direction: Direction): int {
    match Running(trail, torrent)
    case Nothing => 0
    case Just(sample) => if direction.Sent? then sample.sent else sample.received
  }

  // --------------------------------------------------------- sample by sample

  /** A sample whose connection was counted before, and which the ledger does not take up from where that was. */
  predicate CountsAgain(trail: seq<Event>, e: Event, direction: Direction) {
    e.Seen? &&
    var own := Own(trail, e.torrent, e.connection, direction);
    own > 0 && !(own <= Latest(trail, e.torrent, direction) <= Counter(e, direction))
  }

  /** A sample the ledger takes up from where another connection was, further on than its own. */
  predicate Hides(trail: seq<Event>, e: Event, direction: Direction) {
    e.Seen? && Own(trail, e.torrent, e.connection, direction) < Latest(trail, e.torrent, direction) <= Counter(e, direction)
  }

  lemma OwnFromFront(trail: seq<Event>, torrent: string, connection: nat, direction: Direction)
    requires trail != []
    ensures Own(trail, torrent, connection, direction)
         == if exists i | 0 < i < |trail| :: IsOf(trail[i], torrent, connection)
            then Own(trail[1..], torrent, connection, direction)
            else if IsOf(trail[0], torrent, connection) then Counter(trail[0], direction) else 0
    decreases |trail|
  {
    var front, last := trail[..|trail| - 1], trail[|trail| - 1];
    if |trail| > 1 {
      assert trail[1..][|trail| - 2] == last && trail[1..][..|trail| - 2] == front[1..];
      if !IsOf(last, torrent, connection) {
        OwnFromFront(front, torrent, connection, direction);
        assert forall i | 0 <= i < |front| :: front[i] == trail[i];
      }
    }
  }

  lemma {:induction false} MovedSnoc(trail: seq<Event>, e: Event, direction: Direction)
    requires e.Seen?
    ensures Moved(trail + [e], direction)
         == Moved(trail, direction) - Own(trail, e.torrent, e.connection, direction) + Counter(e, direction)
  {
    var longer := trail + [e];
    if trail == [] {
      assert longer[1..] == [];
    } else {
      assert longer[1..] == trail[1..] + [e] && longer[|trail|] == e;
      assert forall i | 0 <= i < |trail| :: longer[i] == trail[i];
      MovedSnoc(trail[1..], e, direction);
      OwnFromFront(trail, e.torrent, e.connection, direction);
      if trail[0].Seen? {
        EndsConnectionSnoc(trail, e);
      }
      if forall i | 0 < i < |trail| :: !IsOf(trail[i], e.torrent, e.connection) {
        assert forall i | 0 <= i < |trail[1..]| :: trail[1..][i] == trail[i + 1];
        NotYetSampled(trail[1..], e.torrent, e.connection, direction);
      } else {
        var i :| 0 < i < |trail| && IsOf(trail[i], e.torrent, e.connection);
        assert IsOf(trail[0], e.torrent, e.connection) ==> !EndsConnection(trail);
      }
    }
  }

  lemma EndsConnectionSnoc(trail: seq<Event>, e: Event)
    requires trail != [] && trail[0].Seen?
    ensures EndsConnection(trail + [e]) <==> EndsConnection(trail) && !IsOf(e, trail[0].torrent, trail[0].connection)
  {
    var longer := trail + [e];
    assert longer[|trail|] == e;
    forall i | 0 < i < |trail|
      ensures longer[i] == trail[i]
    {
    }
    if EndsConnection(longer) {
      forall i | 0 < i < |trail|
        ensures !IsOf(trail[i], trail[0].torrent, trail[0].connection)
      {
        assert longer[i] == trail[i];
      }
    }
  }

  lemma {:induction false} NotYetSampled(trail: seq<Event>, torrent: string, connection: nat, direction: Direction)
    requires forall i | 0 <= i < |trail| :: !IsOf(trail[i], torrent, connection)
    ensures Own(trail, torrent, connection, direction) == 0
  {
    if trail != [] {
      NotYetSampled(trail[..|trail| - 1], torrent, connection, direction);
    }
  }

  lemma {:induction false} MovedParted(trail: seq<Event>, direction: Direction)
    ensures Moved(trail + [Parted], direction) == Moved(trail, direction)
  {
    var longer := trail + [Parted];
    if trail == [] {
      assert longer[1..] == [];
    } else {
      assert longer[1..] == trail[1..] + [Parted];
      assert forall i | 0 <= i < |trail| :: longer[i] == trail[i];
      MovedParted(trail[1..], direction);
    }
  }

  /** What one event more adds to the claim beyond what it adds to what was moved. */
  function Excess(trail: seq<Event>, e: Event, direction: Direction): int {
    if e.Parted? then 0
    else
      var own, latest := Own(trail, e.torrent, e.connection, direction), Latest(trail, e.torrent, direction);
      if latest <= Counter(e, direction) then own - latest else own
  }

  lemma OneMoreEvent(trail: seq<Event>, e: Event, direction: Direction)
    requires NonNegative(trail + [e])
    ensures RunEnds(trail + [e], direction) - RunEnds(trail, direction)
         == Moved(trail + [e], direction) - Moved(trail, direction) + Excess(trail, e, direction)
  {
    if e.Parted? {
      RunEndsParted(trail, direction);
      MovedParted(trail, direction);
    } else {
      assert (trail + [e])[|trail|] == e;
      RunEndsSnoc(trail, e, direction);
      MovedSnoc(trail, e, direction);
    }
  }

  /**
   One call: it claims more than its connection moved since last sampled exactly when it counts
   again, and less exactly when it hides. Both can be told before the call.
   */
  lemma OneSampleIff(trail: seq<Event>, e: Event, direction: Direction)
    requires NonNegative(trail + [e])
    ensures var claimed := RunEnds(trail + [e], direction) - RunEnds(trail, direction);
            var moved := Moved(trail + [e], direction) - Moved(trail, direction);
            && (claimed > moved <==> CountsAgain(trail, e, direction))
            && (claimed < moved <==> Hides(trail, e, direction))
  {
    OneMoreEvent(trail, e, direction);
    assert forall i | 0 <= i < |trail| :: (trail + [e])[i] == trail[i];
    if e.Seen? {
      OwnIsNotNegative(trail, e.torrent, e.connection, direction);
      LatestIsNotNegative(trail, e.torrent, direction);
    }
    hide Own, Latest, RunEnds, Moved;
  }

  lemma {:induction false} OwnIsNotNegative(trail: seq<Event>, torrent: string, connection: nat, direction: Direction)
    requires NonNegative(trail)
    ensures Own(trail, torrent, connection, direction) >= 0
  {
    if trail != [] {
      OwnIsNotNegative(trail[..|trail| - 1], torrent, connection, direction);
    }
  }

  lemma {:induction false} LatestIsNotNegative(trail: seq<Event>, torrent: string, direction: Direction)
    requires NonNegative(trail)
    ensures Latest(trail, torrent, direction) >= 0
  {
    if trail != [] {
      LatestIsNotNegative(trail[..|trail| - 1], torrent, direction);
    }
  }

  // ------------------------------------------------------------ whole traces

  ghost predicate CountsAgainIn(trail: seq<Event>, direction: Direction) {
    exists k | 0 <= k < |trail| :: CountsAgain(trail[..k], trail[k], direction)
  }

  ghost predicate HidesIn(trail: seq<Event>, direction: Direction) {
    exists k | 0 <= k < |trail| :: Hides(trail[..k], trail[k], direction)
  }

  /** The bytes counted again, over the whole trace. */
  function CountedAgain(trail: seq<Event>, direction: Direction): int {
    if trail == [] then 0
    else
      var front, last := trail[..|trail| - 1], trail[|trail| - 1];
      CountedAgain(front, direction) + if Excess(front, last, direction) > 0 then Excess(front, last, direction) else 0
  }

  /** The bytes hidden, over the whole trace. */
  function Hidden(trail: seq<Event>, direction: Direction): int {
    if trail == [] then 0
    else
      var front, last := trail[..|trail| - 1], trail[|trail| - 1];
      Hidden(front, direction) + if Excess(front, last, direction) < 0 then -Excess(front, last, direction) else 0
  }

  lemma SnocApart(trail: seq<Event>)
    requires trail != []
    ensures var front, last := trail[..|trail| - 1], trail[|trail| - 1];
            && trail == front + [last] && (NonNegative(trail) ==> NonNegative(front))
            && (forall k | 0 <= k < |front| :: trail[..k] == front[..k] && trail[k] == front[k])
            && trail[..|trail| - 1] == front
  {
  }

  /** The books to the byte: what is claimed and what is hidden make up what was moved and what is counted again. */
  lemma {:induction false} BooksBalance(trail: seq<Event>, direction: Direction)
    requires NonNegative(trail)
    ensures RunEnds(trail, direction) + Hidden(trail, direction) == Moved(trail, direction) + CountedAgain(trail, direction)
  {
    if trail != [] {
      SnocApart(trail);
      BooksBalance(trail[..|trail| - 1], direction);
      OneMoreEvent(trail[..|trail| - 1], trail[|trail| - 1], direction);
      hide Excess, RunEnds, Moved;
    }
  }

  lemma SomewhereInFront(trail: seq<Event>, direction: Direction)
    requires trail != []
    ensures var front, last := trail[..|trail| - 1], trail[|trail| - 1];
            && (CountsAgainIn(trail, direction) <==> CountsAgainIn(front, direction) || CountsAgain(front, last, direction))
            && (HidesIn(trail, direction) <==> HidesIn(front, direction) || Hides(front, last, direction))
  {
    hide CountsAgain, Hides;
    SnocApart(trail);
    var front, last := trail[..|trail| - 1], trail[|trail| - 1];
    if CountsAgainIn(front, direction) {
      var k :| 0 <= k < |front| && CountsAgain(front[..k], front[k], direction);
      assert CountsAgain(trail[..k], trail[k], direction);
    }
    if HidesIn(front, direction) {
      var k :| 0 <= k < |front| && Hides(front[..k], front[k], direction);
      assert Hides(trail[..k], trail[k], direction);
    }
  }

  /** Bytes are counted again, and bytes are hidden, exactly where a sample does either. */
  lemma {:induction false} CountedAgainIff(trail: seq<Event>, direction: Direction)
    requires NonNegative(trail)
    ensures CountedAgain(trail, direction) >= 0 && (CountedAgain(trail, direction) > 0 <==> CountsAgainIn(trail, direction))
    ensures Hidden(trail, direction) >= 0 && (Hidden(trail, direction) > 0 <==> HidesIn(trail, direction))
  {
    if trail != [] {
      SnocApart(trail);
      CountedAgainIff(trail[..|trail| - 1], direction);
      SomewhereInFront(trail, direction);
      OneMoreEvent(trail[..|trail| - 1], trail[|trail| - 1], direction);
      OneSampleIff(trail[..|trail| - 1], trail[|trail| - 1], direction);
      hide Excess, RunEnds, Moved, CountsAgain, Hides, CountsAgainIn, HidesIn;
    }
  }

  /** A record never claims more than was moved as long as no sample counts again. */
  lemma NeverMoreThanMoved(trail: seq<Event>, direction: Direction)
    requires NonNegative(trail) && !CountsAgainIn(trail, direction)
    ensures RunEnds(trail, direction) <= Moved(trail, direction)
    ensures RunEnds(trail, direction) == Moved(trail, direction) <==> !HidesIn(trail, direction)
  {
    BooksBalance(trail, direction);
    CountedAgainIff(trail, direction);
  }

  /** Where nothing is hidden a record claims too much exactly when some sample counts again. */
  lemma ClaimsTooMuchIff(trail: seq<Event>, direction: Direction)
    requires NonNegative(trail) && !HidesIn(trail, direction)
    ensures RunEnds(trail, direction) > Moved(trail, direction) <==> CountsAgainIn(trail, direction)
  {
    BooksBalance(trail, direction);
    CountedAgainIff(trail, direction);
  }

  ghost predicate AlwaysExact(trail: seq<Event>, direction: Direction) {
    forall k | 0 <= k <= |trail| :: RunEnds(trail[..k], direction) == Moved(trail[..k], direction)
  }

  lemma AlwaysExactInFront(trail: seq<Event>, direction: Direction)
    requires trail != []
    ensures AlwaysExact(trail, direction)
       <==> AlwaysExact(trail[..|trail| - 1], direction) && RunEnds(trail, direction) == Moved(trail, direction)
  {
    hide RunEnds, Moved;
    var front := trail[..|trail| - 1];
    assert trail[..|trail|] == trail;
    assert forall k | 0 <= k <= |front| :: trail[..k] == front[..k];
    if AlwaysExact(trail, direction) {
      forall k | 0 <= k <= |front|
        ensures RunEnds(front[..k], direction) == Moved(front[..k], direction)
      {
        assert RunEnds(trail[..k], direction) == Moved(trail[..k], direction);
      }
    }
  }

  /** The ledger is exact at every moment of a trace exactly when no sample of it counts again or hides. */
  lemma {:induction false} AlwaysExactIff(trail: seq<Event>, direction: Direction)
    requires NonNegative(trail)
    ensures AlwaysExact(trail, direction) <==> !CountsAgainIn(trail, direction) && !HidesIn(trail, direction)
  {
    if trail != [] {
      var front, last := trail[..|trail| - 1], trail[|trail| - 1];
      SnocApart(trail);
      hide *;
      AlwaysExactIff(front, direction);
      AlwaysExactInFront(trail, direction);
      WholeIsPrefix(front, direction);
      SomewhereInFront(trail, direction);
      OneSampleIff(front, last, direction);
    }
  }

  lemma WholeIsPrefix(trail: seq<Event>, direction: Direction)
    ensures AlwaysExact(trail, direction) ==> RunEnds(trail, direction) == Moved(trail, direction)
  {
    assert trail[..|trail|] == trail;
  }

  // ------------------------------------------- what counting again looks like

  /** Where the last sample of a connection stands, and what it says. */
  lemma {:induction false} OwnStands(trail: seq<Event>, torrent: string, connection: nat, direction: Direction) returns (i: nat)
    requires Own(trail, torrent, connection, direction) != 0
    ensures i < |trail| && IsOf(trail[i], torrent, connection)
    ensures Own(trail, torrent, connection, direction) == Counter(trail[i], direction)
    ensures forall m | i < m < |trail| :: !IsOf(trail[m], torrent, connection)
  {
    i := |trail| - 1;
    if !IsOf(trail[i], torrent, connection) {
      i := OwnStands(trail[..|trail| - 1], torrent, connection, direction);
    }
  }

  lemma {:induction false} OwnIs(trail: seq<Event>, i: nat, direction: Direction)
    requires i < |trail| && trail[i].Seen?
    requires forall m | i < m < |trail| :: !IsOf(trail[m], trail[i].torrent, trail[i].connection)
    ensures Own(trail, trail[i].torrent, trail[i].connection, direction) == Counter(trail[i], direction)
    decreases |trail|
  {
    if i < |trail| - 1 {
      OwnIs(trail[..|trail| - 1], i, direction);
    }
  }

  predicate Marks(e: Event, torrent: string) {
    e.Parted? || e.torrent == torrent
  }

  /** The ledger goes on from a torrent's last sample, or from nothing behind a forgetting. */
  lemma {:induction false} LatestIs(trail: seq<Event>, torrent: string, j: nat, direction: Direction)
    requires j < |trail| && Marks(trail[j], torrent) && forall m | j < m < |trail| :: !Marks(trail[m], torrent)
    ensures Latest(trail, torrent, direction) == if trail[j].Parted? then 0 else Counter(trail[j], direction)
    decreases |trail|
  {
    if j < |trail| - 1 {
      LatestIs(trail[..|trail| - 1], torrent, j, direction);
    }
  }

  lemma {:induction false} LastMark(trail: seq<Event>, torrent: string, i: nat) returns (j: nat)
    requires i < |trail| && Marks(trail[i], torrent)
    ensures i <= j < |trail| && Marks(trail[j], torrent) && forall m | j < m < |trail| :: !Marks(trail[m], torrent)
    decreases |trail|
  {
    j := |trail| - 1;
    if !Marks(trail[j], torrent) {
      j := LastMark(trail[..|trail| - 1], torrent, i);
    }
  }

  // --------------------------------------------- one connection at a time

  /** Connections to a torrent follow one another, and the counters of one only grow. */
  predicate Orderly(trail: seq<Event>) {
    forall i, k | 0 <= i < k < |trail| && trail[i].Seen? && trail[k].Seen? && trail[i].torrent == trail[k].torrent ::
      && trail[i].connection <= trail[k].connection
      && (trail[i].connection == trail[k].connection ==>
            trail[i].sent <= trail[k].sent && trail[i].received <= trail[k].received)
  }

  /** A connection that had moved something is forgotten, and sampled again afterwards. */
  ghost predicate CutShort(trail: seq<Event>, direction: Direction) {
    exists i, j, k | 0 <= i < j < k < |trail| :: Cut(trail, i, j, k, direction)
  }

  predicate Cut(trail: seq<Event>, i: nat, j: nat, k: nat, direction: Direction)
    requires i < j < k < |trail|
  {
    && trail[i].Seen? && Counter(trail[i], direction) > 0
    && trail[j].Parted? && IsOf(trail[k], trail[i].torrent, trail[i].connection)
  }

  lemma CountsAgainIsCutShort(trail: seq<Event>, k: nat, direction: Direction)
    requires NonNegative(trail) && Orderly(trail) && k < |trail| && CountsAgain(trail[..k], trail[k], direction)
    ensures CutShort(trail, direction)
  {
    var front, e := trail[..k], trail[k];
    var i := OwnStands(front, e.torrent, e.connection, direction);
    var j := LastMark(front, e.torrent, i);
    LatestIs(front, e.torrent, j, direction);
    hide Own, Latest;
    assert front[i] == trail[i] && front[j] == trail[j];
    assert trail[j].Parted?;
    assert Cut(trail, i, j, k, direction);
  }

  /** The first sample of a connection behind an event. */
  lemma {:induction false} FirstBehind(trail: seq<Event>, j: nat, k: nat, torrent: string, connection: nat) returns (first: nat)
    requires j < k < |trail| && IsOf(trail[k], torrent, connection)
    ensures j < first <= k && IsOf(trail[first], torrent, connection)
    ensures forall m | j < m < first :: !IsOf(trail[m], torrent, connection)
    decreases k - j
  {
    if IsOf(trail[j + 1], torrent, connection) {
      first := j + 1;
    } else {
      first := FirstBehind(trail, j + 1, k, torrent, connection);
    }
  }

  lemma {:induction false} LastBefore(trail: seq<Event>, i: nat, j: nat, torrent: string, connection: nat) returns (last: nat)
    requires i < j <= |trail| && IsOf(trail[i], torrent, connection)
    ensures i <= last < j && IsOf(trail[last], torrent, connection)
    ensures forall m | last < m < j :: !IsOf(trail[m], torrent, connection)
    decreases j - i
  {
    if IsOf(trail[j - 1], torrent, connection) {
      last := j - 1;
    } else {
      last := LastBefore(trail, i, j - 1, torrent, connection);
    }
  }

  lemma CutShortCountsAgain(trail: seq<Event>, i: nat, j: nat, k: nat, direction: Direction)
    requires NonNegative(trail) && Orderly(trail) && i < j < k < |trail|
    requires Cut(trail, i, j, k, direction)
    ensures CountsAgainIn(trail, direction)
  {
    var torrent, connection := trail[i].torrent, trail[i].connection;
    var first := FirstBehind(trail, j, k, torrent, connection);
    var last := LastBefore(trail, i, j, torrent, connection);
    var front := trail[..first];
    OwnIs(front, last, direction);
    assert i < last ==> trail[i].sent <= trail[last].sent && trail[i].received <= trail[last].received;
    var mark := LastMark(front, torrent, j);
    LatestIs(front, torrent, mark, direction);
    hide Own, Latest;
    assert trail[mark].Parted?;
    assert CountsAgain(trail[..first], trail[first], direction);
  }

  /**
   With one connection at a time, bytes are counted again exactly when a connection that had
   moved something is forgotten and goes on: what the periodic save does to every connection.
   */
  lemma CountsAgainIffCutShort(trail: seq<Event>, direction: Direction)
    requires NonNegative(trail) && Orderly(trail)
    ensures CountsAgainIn(trail, direction) <==> CutShort(trail, direction)
    ensures !HidesIn(trail, direction) ==> (RunEnds(trail, direction) > Moved(trail, direction) <==> CutShort(trail, direction))
  {
    if !HidesIn(trail, direction) {
      ClaimsTooMuchIff(trail, direction);
    }
    hide RunEnds, Moved, HidesIn;
    hide Orderly, NonNegative;
    if CountsAgainIn(trail, direction) {
      var k :| 0 <= k < |trail| && CountsAgain(trail[..k], trail[k], direction);
      CountsAgainIsCutShort(trail, k, direction);
    }
    if CutShort(trail, direction) {
      var i, j, k :| 0 <= i < j < k < |trail| && Cut(trail, i, j, k, direction);
      CutShortCountsAgain(trail, i, j, k, direction);
    }
  }

  // ------------------------------------------------ one address for many

  /**
   Two connections behind one address take turns in one torrent, and the one in between is not
   between the other's two counters.
   */
  ghost predicate TakeTurns(trail: seq<Event>, direction: Direction) {
    exists i, j, k | 0 <= i < j < k < |trail| :: Turn(trail, i, j, k, direction)
  }

  predicate Turn(trail: seq<Event>, i: nat, j: nat, k: nat, direction: Direction)
    requires i < j < k < |trail|
  {
    && trail[i].Seen? && trail[j].Seen? && trail[k].Seen?
    && IsOf(trail[k], trail[i].torrent, trail[i].connection)
    && trail[j].torrent == trail[i].torrent && trail[j].connection != trail[i].connection
    && (forall m | i < m < k :: !IsOf(trail[m], trail[i].torrent, trail[i].connection))
    && (forall m | j < m < k :: !Marks(trail[m], trail[i].torrent))
    && Counter(trail[i], direction) > 0
    && !(Counter(trail[i], direction) <= Counter(trail[j], direction) <= Counter(trail[k], direction))
  }

  /** The counters of a connection only grow, whatever the others do. */
  predicate Truthful(trail: seq<Event>) {
    forall i, k | 0 <= i < k < |trail| && trail[i].Seen? && IsOf(trail[k], trail[i].torrent, trail[i].connection) ::
      trail[i].sent <= trail[k].sent && trail[i].received <= trail[k].received
  }

  /**
   Nothing forgotten, bytes are counted again exactly when two connections of one address take
   turns so: the ledger is keyed by address and torrent alone, and takes them for one.
   */
  lemma CountsAgainIffTakeTurns(trail: seq<Event>, direction: Direction)
    requires NonNegative(trail) && Truthful(trail) && forall m | 0 <= m < |trail| :: trail[m].Seen?
    ensures CountsAgainIn(trail, direction) <==> TakeTurns(trail, direction)
    ensures !HidesIn(trail, direction) ==> (RunEnds(trail, direction) > Moved(trail, direction) <==> TakeTurns(trail, direction))
  {
    if !HidesIn(trail, direction) {
      ClaimsTooMuchIff(trail, direction);
    }
    hide RunEnds, Moved, HidesIn;
    if CountsAgainIn(trail, direction) {
      var k :| 0 <= k < |trail| && CountsAgain(trail[..k], trail[k], direction);
      CountsAgainIsATurn(trail, k, direction);
    }
    if TakeTurns(trail, direction) {
      var i, j, k :| 0 <= i < j < k < |trail| && Turn(trail, i, j, k, direction);
      var front := trail[..k];
      OwnIs(front, i, direction);
      LatestIs(front, trail[i].torrent, j, direction);
      hide Own, Latest;
      assert CountsAgain(trail[..k], trail[k], direction);
    }
  }

  lemma CountsAgainIsATurn(trail: seq<Event>, k: nat, direction: Direction)
    requires Truthful(trail) && forall m | 0 <= m < |trail| :: trail[m].Seen?
    requires k < |trail| && CountsAgain(trail[..k], trail[k], direction)
    ensures TakeTurns(trail, direction)
  {
    var front, e := trail[..k], trail[k];
    var i := OwnStands(front, e.torrent, e.connection, direction);
    var j := LastMark(front, e.torrent, i);
    LatestIs(front, e.torrent, j, direction);
    hide Own, Latest;
    assert front[i] == trail[i] && front[j] == trail[j];
    assert forall m | 0 <= m < k :: front[m] == trail[m];
    assert i != j;
    assert Turn(trail, i, j, k, direction);
  }

  // ---------------------------------------------------------------- instances

  /** The periodic save in the middle of a connection: five hundred bytes moved, a thousand claimed. */
  lemma SavingMidwayCountsTwice()
    ensures var trail := [Seen("t", 0, 500, 0), Parted, Seen("t", 0, 500, 0)];
            && CutShort(trail, Sent) && RunEnds(trail, Sent) == 1000 && Moved(trail, Sent) == 500
  {
    var s := Seen("t", 0, 500, 0);
    var trail := [s, Parted, s];
    assert trail[1..] == [Parted, s] && trail[1..][1..] == [s] && trail[1..][1..][1..] == [];
    assert Moved([s], Sent) == 500 && RunEnds([s], Sent) == 500;
    assert Cut(trail, 0, 1, 2, Sent);
  }

  /** Two connections of one address that moved 500 and 700 bytes, sampled in turn: 1400 claimed. */
  lemma SharedAddressCountsTwice()
    ensures var one, two := Seen("t", 1, 500, 0), Seen("t", 2, 700, 0);
            var trail := [one, two, one, two];
            && TakeTurns(trail, Sent) && RunEnds(trail, Sent) == 1400 && Moved(trail, Sent) == 1200
  {
    var one, two := Seen("t", 1, 500, 0), Seen("t", 2, 700, 0);
    var trail := [one, two, one, two];
    assert Turn(trail, 0, 1, 2, Sent);
    SharedRuns(one, two);
    SharedMoved(one, two);
  }

  lemma SharedRuns(one: Event, two: Event)
    requires one == Seen("t", 1, 500, 0) && two == Seen("t", 2, 700, 0)
    ensures RunEnds([one, two, one, two], Sent) == 1400
  {
    var trail := [one, two, one, two];
    assert trail[1..] == [two, one, two] && trail[1..][1..] == [one, two];
    assert trail[1..][1..][1..] == [two] && trail[1..][1..][1..][1..] == [];
    assert NextMark(trail[1..], "t") == Just(two);
    assert NextMark(trail[1..][1..], "t") == Just(one);
    assert NextMark(trail[1..][1..][1..], "t") == Just(two);
    assert RunEnds(trail[1..][1..][1..], Sent) == 700;
    assert RunEnds(trail[1..][1..], Sent) == 700;
    assert RunEnds(trail[1..], Sent) == 1400;
  }

  lemma SharedMoved(one: Event, two: Event)
    requires one == Seen("t", 1, 500, 0) && two == Seen("t", 2, 700, 0)
    ensures Moved([one, two, one, two], Sent) == 1200
  {
    var trail := [one, two, one, two];
    assert trail[1..] == [two, one, two] && trail[1..][1..] == [one, two];
    assert trail[1..][1..][1..] == [two] && trail[1..][1..][1..][1..] == [];
    assert IsOf(trail[2], "t", 1) && IsOf(trail[1..][2], "t", 2);
    assert Moved(trail[1..][1..][1..], Sent) == 700;
    assert Moved(trail[1..][1..], Sent) == 1200;
    assert Moved(trail[1..], Sent) == 1200;
  }
}
