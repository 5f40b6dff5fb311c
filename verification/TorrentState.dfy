/** The states Deluge reports, and how they follow from libtorrent's. */
module TorrentState {
  datatype LtState =
    | CheckingFiles
    | DownloadingMetadata
    | LtDownloading
    | Finished
    | LtSeeding
    | CheckingResumeData
    | OtherState(raw: nat)

  datatype State = Allocating | Checking | Downloading | Seeding | Paused | Error | Queued | Moving
  {
    function Name(): string {
      match this
      case Allocating => "Allocating"
      case Checking => "Checking"
      case Downloading => "Downloading"
      case Seeding => "Seeding"
      case Paused => "Paused"
      case Error => "Error"
      case Queued => "Queued"
      case Moving => "Moving"
    }
  }

  /** What the derivation reads of libtorrent's status. */
  datatype LtFlags = LtFlags(state: LtState, hasError: bool, moving: bool, paused: bool, autoManaged: bool)

  /** The order of the tests is the logic: an error outranks a move, a move a pause. */
  function Derive(flags: LtFlags, sessionPaused: bool, forcedError: bool): State {
    if forcedError || flags.hasError then Error
    else if flags.moving then Moving
    else if !sessionPaused && flags.paused && flags.autoManaged then Queued
    else if sessionPaused || flags.paused then Paused
    else
      match flags.state
      case CheckingFiles => Checking
      case CheckingResumeData => Checking
      case DownloadingMetadata => Downloading
      case LtDownloading => Downloading
      case Finished => Seeding
      case LtSeeding => Seeding
      case OtherState(_) => Downloading
  }

  /** Clients filter on the names, so no two states may share one, nor any be a sidebar question. */
  lemma NamesAreDistinct(a: State, b: State)
    ensures a.Name() == b.Name() <==> a == b
    ensures a.Name() !in {"All", "Active", "Unregistered", "Dead"}
  {
    var n, m := a.Name(), b.Name();
    assert n[0] == m[0] && |n| == |m| <==> a == b;
    assert n[0] == 'A' ==> |n| == 10;
    assert n[0] == 'D' ==> |n| == 11;
  }

  /** Which state a torrent is shown in, for each of them exactly when: who stopped it, if anybody did, and what it does otherwise. */
  lemma StateSaysWhy(flags: LtFlags, sessionPaused: bool, forcedError: bool)
    ensures var state, failed := Derive(flags, sessionPaused, forcedError), forcedError || flags.hasError;
            var stopped := sessionPaused || flags.paused;
            var queued := !sessionPaused && flags.paused && flags.autoManaged;
            var running := !failed && !flags.moving && !stopped;
            && (state.Name() == "Error" <==> failed)
            && (state.Name() == "Moving" <==> !failed && flags.moving)
            && (state.Name() == "Queued" <==> !failed && !flags.moving && queued)
            && (state.Name() == "Paused" <==> !failed && !flags.moving && stopped && !queued)
            && (state.Name() == "Checking" <==> running && flags.state in {CheckingFiles, CheckingResumeData})
            && (state.Name() == "Seeding" <==> running && flags.state in {Finished, LtSeeding})
            && (state.Name() == "Downloading" <==>
                  running && flags.state !in {CheckingFiles, CheckingResumeData, Finished, LtSeeding})
  {
    var state := Derive(flags, sessionPaused, forcedError);
    NamesAreDistinct(state, Error);
    NamesAreDistinct(state, Moving);
    NamesAreDistinct(state, Queued);
    NamesAreDistinct(state, Paused);
    NamesAreDistinct(state, Checking);
    NamesAreDistinct(state, Seeding);
    NamesAreDistinct(state, Downloading);
  }

  /** Pausing the session pauses every torrent, errors and moves aside, and hides why one was not running. */
  lemma SessionPauseCovers(flags: LtFlags, forcedError: bool)
    ensures var before := Derive(flags, false, forcedError);
            Derive(flags, true, forcedError) == if before in {Error, Moving} then before else Paused
  {
  }
}
