/**
 Which tracker a torrent counts as being on, and the cache that spares the session thread a
 round trip to libtorrent for every torrent of every poll.
 */
module TrackerCache {
  import opened Bytes

  datatype TrackerEntry = TrackerEntry(
    url: string,
    tier: nat,
    message: Option<string>,
    verified: bool,
    updating: bool,
    fails: int)

  function FirstUrl(list: seq<TrackerEntry>): string {
    if list == [] then "" else list[0].url
  }

  /** The tracker announced to, or the first listed before the first announce. */
  function CurrentTracker(announced: string, list: seq<TrackerEntry>): string {
    if announced != "" then announced else FirstUrl(list)
  }

  /** A cached fallback in the shape callers read: one entry with a URL and nothing else filled in. */
  function OneTracker(url: string): seq<TrackerEntry> {
    if url == "" then [] else [TrackerEntry(url, 0, Nothing, false, false, 0)]
  }

  /** What a caller is handed in place of the session's list. */
  function Offered(announced: string, cached: Option<string>, full: seq<TrackerEntry>, needsList: bool): seq<TrackerEntry> {
    if needsList then full
    else if announced != "" then []
    else if cached.Just? then OneTracker(cached.value)
    else full
  }

  predicate Fresh(cached: Option<string>, full: seq<TrackerEntry>) {
    cached.Just? ==> cached.value == FirstUrl(full)
  }

  /**
   The list offered answers as the session's own list would, for every announce state and both
   kinds of caller, exactly when the cached URL is fresh or nobody comes to read it.
   */
  lemma OfferedAnswersAlike(announced: string, cached: Option<string>, full: seq<TrackerEntry>, needsList: bool)
    ensures CurrentTracker(announced, Offered(announced, cached, full, needsList)) == CurrentTracker(announced, full)
       <==> (needsList || announced != "" || Fresh(cached, full))
  {
  }

  // ------------------------------------------------------ one torrent's life

  /** What happens to one infohash. Metadata reaches libtorrent before the alert that says so is handled. */
  datatype Event =
    | Added(list: seq<TrackerEntry>)
    | Looked(announced: string, needsList: bool)
    | Replaced(list: seq<TrackerEntry>, refused: bool)
    | Arrived(list: seq<TrackerEntry>)
    | Handled
    | Removed

  /** libtorrent's list, while it has the torrent, and what is cached of it. */
  datatype Held = Held(list: Option<seq<TrackerEntry>>, cached: Option<string>)

  predicate CanHappen(h: Held, e: Event) {
    match e
    case Added(_) => h.list.Nothing?
    case Looked(_, _) => h.list.Just?
    case Arrived(_) => h.list.Just?
    case _ => true
  }

  /** Whether a lookup asks libtorrent, and so remembers the first URL of the list it is given. */
  predicate Fetches(h: Held, e: Event) {
    e.Looked? && (e.needsList || (e.announced == "" && h.cached.Nothing?))
  }

  predicate Forgets(e: Event) {
    e.Replaced? || e.Handled? || e.Removed?
  }

  function Next(h: Held, e: Event): Held
    requires CanHappen(h, e)
  {
    match e
    case Added(list) => h.(list := Just(list))
    case Looked(_, _) => if Fetches(h, e) then h.(cached := Just(FirstUrl(h.list.value))) else h
    case Replaced(list, refused) => Held(if refused || h.list.Nothing? then h.list else Just(list), Nothing)
    case Arrived(list) => h.(list := Just(list))
    case Handled => h.(cached := Nothing)
    case Removed => Held(Nothing, Nothing)
  }

  /** Where a life leads, if everything in it can happen. */
  function After(life: seq<Event>): Option<Held> {
    if life == [] then Just(Held(Nothing, Nothing))
    else
      var before := After(life[..|life| - 1]);
      var e := life[|life| - 1];
      if before.Just? && CanHappen(before.value, e) then Just(Next(before.value, e)) else Nothing
  }

  /** The list a lookup in the middle of a life fetched. */
  function Fetched(life: seq<Event>, f: nat): Option<seq<TrackerEntry>>
    requires f < |life|
  {
    var before := After(life[..f]);
    if before.Just? && before.value.list.Just? && Fetches(before.value, life[f]) then before.value.list else Nothing
  }

  /** A lookup fetched the list, and nothing has been forgotten or fetched since. */
  predicate LastFetch(life: seq<Event>, f: nat)
    requires f < |life|
  {
    Fetched(life, f).Just? && forall m | f < m < |life| :: !Forgets(life[m]) && Fetched(life, m).Nothing?
  }

  /** Metadata came behind that lookup and moved the first tracker, and no more has come since. */
  predicate Overtaken(life: seq<Event>, f: nat, a: nat)
    requires f < a < |life|
  {
    && LastFetch(life, f) && life[a].Arrived? && FirstUrl(life[a].list) != FirstUrl(Fetched(life, f).value)
    && forall m | a < m < |life| :: !life[m].Arrived?
  }

  ghost predicate Pending(life: seq<Event>) {
    exists f, a | 0 <= f < a < |life| :: Overtaken(life, f, a)
  }

  /** The list libtorrent has, from what was fetched last and what arrived since. */
  function ListSince(life: seq<Event>, f: nat): seq<TrackerEntry>
    requires f < |life| && Fetched(life, f).Just?
    decreases |life|
  {
    var last := |life| - 1;
    if last == f then Fetched(life, f).value
    else if life[last].Arrived? then life[last].list
    else
      assert life[..last][..f] == life[..f];
      ListSince(life[..last], f)
  }

  /** Behind the last fetch, the cache holds what it fetched, whatever has arrived. */
  lemma {:induction false} SinceLastFetch(life: seq<Event>, f: nat)
    requires f < |life| && After(life).Just? && LastFetch(life, f)
    ensures After(life).value == Held(Just(ListSince(life, f)), Just(FirstUrl(Fetched(life, f).value)))
    decreases |life|
  {
    var last := |life| - 1;
    if last > f {
      var front := life[..last];
      assert front[..f] == life[..f];
      assert forall m | f < m < last :: front[m] == life[m] && front[..m] == life[..m];
      assert Fetched(life, last).Nothing?;
      SinceLastFetch(front, f);
    }
  }

  /** Whatever is cached was fetched, and not forgotten since. */
  lemma {:induction false} CachedWasFetched(life: seq<Event>) returns (f: nat)
    requires After(life).Just? && After(life).value.cached.Just?
    ensures f < |life| && LastFetch(life, f)
    decreases |life|
  {
    var last := |life| - 1;
    if Fetched(life, last).Just? {
      f := last;
    } else {
      var front := life[..last];
      f := CachedWasFetched(front);
      assert front[..f] == life[..f];
      assert forall m | f < m < last :: front[m] == life[m] && front[..m] == life[..m];
    }
  }

  lemma {:induction false} LastArrival(life: seq<Event>, f: nat) returns (a: nat)
    requires f < |life| && Fetched(life, f).Just? && ListSince(life, f) != Fetched(life, f).value
    ensures f < a < |life| && life[a].Arrived? && life[a].list == ListSince(life, f)
    ensures forall m | a < m < |life| :: !life[m].Arrived?
    decreases |life|
  {
    a := |life| - 1;
    if !life[a].Arrived? {
      assert life[..a][..f] == life[..f];
      a := LastArrival(life[..|life| - 1], f);
    }
  }

  lemma {:induction false} ListIsArrival(life: seq<Event>, f: nat, a: nat)
    requires f < a < |life| && Fetched(life, f).Just? && life[a].Arrived?
    requires forall m | a < m < |life| :: !life[m].Arrived?
    ensures ListSince(life, f) == life[a].list
    decreases |life|
  {
    if a < |life| - 1 {
      assert life[..|life| - 1][..f] == life[..f];
      ListIsArrival(life[..|life| - 1], f, a);
    }
  }

  /**
   Over every life: the cached URL is not the first of the session's list exactly while
   metadata that moved the first tracker has arrived since the list was last fetched, and
   nothing has been forgotten since.
   */
  lemma StaleIffPending(life: seq<Event>)
    requires After(life).Just? && After(life).value.list.Just?
    ensures !Fresh(After(life).value.cached, After(life).value.list.value) <==> Pending(life)
  {
    hide After;
    if !Fresh(After(life).value.cached, After(life).value.list.value) {
      var f := CachedWasFetched(life);
      SinceLastFetch(life, f);
      var a := LastArrival(life, f);
      assert Overtaken(life, f, a);
    }
    if Pending(life) {
      var f, a :| 0 <= f < a < |life| && Overtaken(life, f, a);
      SinceLastFetch(life, f);
      ListIsArrival(life, f, a);
    }
  }

  /** Nothing is cached of a torrent libtorrent does not have. */
  lemma {:induction false} GoneIsForgotten(life: seq<Event>)
    requires After(life).Just? && After(life).value.list.Nothing?
    ensures After(life).value.cached.Nothing?
  {
    if life != [] {
      var before := After(life[..|life| - 1]).value;
      if before.list.Nothing? {
        GoneIsForgotten(life[..|life| - 1]);
      }
    }
  }

  // ------------------------------------------------------------- the session

  function HeldOf(session: map<string, seq<TrackerEntry>>, firstTracker: map<string, string>, id: string): Held {
    Held(if id in session then Just(session[id]) else Nothing, if id in firstTracker then Just(firstTracker[id]) else Nothing)
  }

  function LifeIn(lives: map<string, seq<Event>>, id: string): seq<Event> {
    if id in lives then lives[id] else []
  }

  function Lived(lives: map<string, seq<Event>>, id: string, e: Event): map<string, seq<Event>> {
    lives[id := LifeIn(lives, id) + [e]]
  }

  /** Both maps are where every infohash's life led. */
  ghost predicate AllLed(
    session: map<string, seq<TrackerEntry>>, firstTracker: map<string, string>, lives: map<string, seq<Event>>)
  {
    forall id :: After(LifeIn(lives, id)) == Just(HeldOf(session, firstTracker, id))
  }

  lemma SameElsewhere(
    session: map<string, seq<TrackerEntry>>, firstTracker: map<string, string>, id: string,
    sessionNow: map<string, seq<TrackerEntry>>, firstTrackerNow: map<string, string>, other: string)
    requires sessionNow - {id} == session - {id} && firstTrackerNow - {id} == firstTracker - {id} && other != id
    ensures HeldOf(sessionNow, firstTrackerNow, other) == HeldOf(session, firstTracker, other)
  {
    assert other in session <==> other in session - {id};
    assert other in sessionNow <==> other in sessionNow - {id};
    assert other in firstTracker <==> other in firstTracker - {id};
    assert other in firstTrackerNow <==> other in firstTrackerNow - {id};
    assert other in session ==> session[other] == (session - {id})[other];
    assert other in sessionNow ==> sessionNow[other] == (sessionNow - {id})[other];
    assert other in firstTracker ==> firstTracker[other] == (firstTracker - {id})[other];
    assert other in firstTrackerNow ==> firstTrackerNow[other] == (firstTrackerNow - {id})[other];
  }

  lemma LedOn(life: seq<Event>, h: Held, e: Event)
    requires After(life) == Just(h) && CanHappen(h, e)
    ensures After(life + [e]) == Just(Next(h, e))
  {
    hide Next, CanHappen;
    assert (life + [e])[..|life|] == life;
  }

  lemma OneMoreEvent(
    session: map<string, seq<TrackerEntry>>, firstTracker: map<string, string>, lives: map<string, seq<Event>>,
    id: string, e: Event, sessionNow: map<string, seq<TrackerEntry>>, firstTrackerNow: map<string, string>)
    requires AllLed(session, firstTracker, lives)
    requires CanHappen(HeldOf(session, firstTracker, id), e)
    requires HeldOf(sessionNow, firstTrackerNow, id) == Next(HeldOf(session, firstTracker, id), e)
    requires sessionNow - {id} == session - {id} && firstTrackerNow - {id} == firstTracker - {id}
    ensures AllLed(sessionNow, firstTrackerNow, Lived(lives, id, e))
  {
    hide Next, CanHappen, After, HeldOf;
    LedOn(LifeIn(lives, id), HeldOf(session, firstTracker, id), e);
    forall other
      ensures After(LifeIn(Lived(lives, id, e), other)) == Just(HeldOf(sessionNow, firstTrackerNow, other))
    {
      assert After(LifeIn(lives, other)) == Just(HeldOf(session, firstTracker, other));
      if other != id {
        SameElsewhere(session, firstTracker, id, sessionNow, firstTrackerNow, other);
      }
    }
  }

  lemma PutElsewhere<V>(m: map<string, V>, id: string, v: V)
    ensures m[id := v] - {id} == m - {id} && (m - {id}) - {id} == m - {id}
  {
  }

  /** What the daemon's session thread holds of its torrents' trackers. */
  class SessionState {
    /** libtorrent's own lists, by infohash. */
    var session: map<string, seq<TrackerEntry>>
    var firstTracker: map<string, string>
    /** Everything that happened to each infohash. */
    ghost var lives: map<string, seq<Event>>

    constructor ()
      ensures Valid() && session == map[] && firstTracker == map[] && lives == map[]
    {
      session := map[];
      firstTracker := map[];
      lives := map[];
    }

    ghost predicate Valid()
      reads this
    {
      AllLed(session, firstTracker, lives)
    }

    method NoteFirstTracker(id: string, list: seq<TrackerEntry>)
      modifies this`firstTracker
      ensures firstTracker == old(firstTracker)[id := FirstUrl(list)]
    {
      firstTracker := firstTracker[id := FirstUrl(list)];
    }

    /** What a torrent in the session is handed out as its list, and whether that names its tracker right. */
    method TrackerList(id: string, announced: string, needsList: bool) returns (list: seq<TrackerEntry>)
      requires Valid() && id in session
      modifies this`firstTracker, this`lives
      ensures Valid() && lives == Lived(old(lives), id, Looked(announced, needsList))
      ensures list == Offered(announced, HeldOf(session, old(firstTracker), id).cached, session[id], needsList)
      ensures CurrentTracker(announced, list) == CurrentTracker(announced, session[id])
         <==> (needsList || announced != "" || !Pending(LifeIn(old(lives), id)))
      ensures firstTracker == if needsList || (announced == "" && id !in old(firstTracker))
                              then old(firstTracker)[id := FirstUrl(session[id])] else old(firstTracker)
    {
      LookupIsRightIff(session, firstTracker, lives, id, announced, needsList);
      hide AllLed, Pending, CurrentTracker, LifeIn, Lived;
      ghost var was := firstTracker;
      if needsList {
        list := session[id];
        NoteFirstTracker(id, list);
      } else if announced != "" {
        list := [];
      } else if id in firstTracker {
        list := OneTracker(firstTracker[id]);
      } else {
        list := session[id];
        NoteFirstTracker(id, list);
      }
      OneMoreEvent(session, was, lives, id, Looked(announced, needsList), session, firstTracker);
      lives := Lived(lives, id, Looked(announced, needsList));
    }

    method ForgetTrackers(id: string)
      modifies this`firstTracker
      ensures firstTracker == old(firstTracker) - {id}
    {
      firstTracker := firstTracker - {id};
    }

    /** Somebody replaces the announce list; libtorrent may refuse, and the cache is dropped either way. */
    method ReplaceTrackers(id: string, list: seq<TrackerEntry>, refused: bool)
      requires Valid()
      modifies this
      ensures Valid() && lives == Lived(old(lives), id, Replaced(list, refused))
      ensures session == if refused || id !in old(session) then old(session) else old(session)[id := list]
      ensures firstTracker == old(firstTracker) - {id}
    {
      hide AllLed, Lived;
      ghost var was, cached := session, firstTracker;
      if !refused && id in session {
        session := session[id := list];
      }
      ForgetTrackers(id);
      OneMoreEvent(was, cached, lives, id, Replaced(list, refused), session, firstTracker);
      lives := Lived(lives, id, Replaced(list, refused));
    }

    /** A magnet's metadata arrives in libtorrent; the alert that says so waits to be handled. */
    method MetadataArrives(id: string, list: seq<TrackerEntry>)
      requires Valid() && id in session
      modifies this`session, this`lives
      ensures Valid() && lives == Lived(old(lives), id, Arrived(list))
      ensures session == old(session)[id := list]
    {
      PutElsewhere(session, id, list);
      hide AllLed, Lived, LifeIn, FirstUrl;
      OneMoreEvent(session, firstTracker, lives, id, Arrived(list), session[id := list], firstTracker);
      session := session[id := list];
      lives := Lived(lives, id, Arrived(list));
    }

    method MetadataHandled(id: string)
      requires Valid()
      modifies this`firstTracker, this`lives
      ensures Valid() && lives == Lived(old(lives), id, Handled)
      ensures firstTracker == old(firstTracker) - {id}
    {
      hide AllLed, Lived;
      OneMoreEvent(session, firstTracker, lives, id, Handled, session, firstTracker - {id});
      ForgetTrackers(id);
      lives := Lived(lives, id, Handled);
    }

    /** A removal, as every caller of it does it: out of the session, then out of the cache. */
    method Remove(id: string)
      requires Valid()
      modifies this
      ensures Valid() && lives == Lived(old(lives), id, Removed)
      ensures session == old(session) - {id} && firstTracker == old(firstTracker) - {id}
    {
      hide AllLed, Lived;
      OneMoreEvent(session, firstTracker, lives, id, Removed, session - {id}, firstTracker - {id});
      session := session - {id};
      ForgetTrackers(id);
      lives := Lived(lives, id, Removed);
    }

    /** A torrent is added. Nothing need be forgotten: nothing is cached of one that is not there. */
    method Add(id: string, list: seq<TrackerEntry>)
      requires Valid() && id !in session
      modifies this`session, this`lives
      ensures Valid() && lives == Lived(old(lives), id, Added(list))
      ensures session == old(session)[id := list] && id !in firstTracker
    {
      OnlyListedAreCached(session, firstTracker, lives, id);
      PutElsewhere(session, id, list);
      hide AllLed, Lived, LifeIn, FirstUrl;
      OneMoreEvent(session, firstTracker, lives, id, Added(list), session[id := list], firstTracker);
      session := session[id := list];
      lives := Lived(lives, id, Added(list));
    }
  }

  lemma LookupIsRightIff(
    session: map<string, seq<TrackerEntry>>, firstTracker: map<string, string>, lives: map<string, seq<Event>>,
    id: string, announced: string, needsList: bool)
    requires AllLed(session, firstTracker, lives) && id in session
    ensures var list := Offered(announced, HeldOf(session, firstTracker, id).cached, session[id], needsList);
            CurrentTracker(announced, list) == CurrentTracker(announced, session[id])
            <==> (needsList || announced != "" || !Pending(LifeIn(lives, id)))
  {
    assert After(LifeIn(lives, id)) == Just(HeldOf(session, firstTracker, id));
    hide After, Pending;
    StaleIffPending(LifeIn(lives, id));
    OfferedAnswersAlike(announced, HeldOf(session, firstTracker, id).cached, session[id], needsList);
  }

  lemma OnlyListedAreCached(
    session: map<string, seq<TrackerEntry>>, firstTracker: map<string, string>, lives: map<string, seq<Event>>, id: string)
    requires AllLed(session, firstTracker, lives) && id !in session
    ensures id !in firstTracker
  {
    assert After(LifeIn(lives, id)) == Just(HeldOf(session, firstTracker, id));
    GoneIsForgotten(LifeIn(lives, id));
  }

  /** An instance: between the arrival of metadata and its alert a poll reads the old tracker. */
  method StaleUntilHandled() returns (stale: string, current: string)
    ensures stale != current
  {
    hide AllLed, Pending;
    var state := new SessionState();
    var magnet := TrackerEntry("udp://a", 0, Nothing, false, false, 0);
    var metadata := TrackerEntry("udp://b", 0, Nothing, false, false, 0);
    state.Add("id", [magnet]);
    var seen := state.TrackerList("id", "", false);
    state.MetadataArrives("id", [metadata, magnet]);
    var list := state.TrackerList("id", "", false);
    stale := CurrentTracker("", list);
    current := CurrentTracker("", state.session["id"]);
    assert stale == "udp://a" && current == "udp://b";
    assert stale[6] != current[6];
  }
}
