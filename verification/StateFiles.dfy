/**
 State files and the crash that may come between any two steps of writing one.

 The writer thread takes jobs in order. Writing a file is four steps that a kill can fall
 between: fill a temporary beside it, move the old file to `.bak`, move the temporary over it.
 Each rename is atomic and reaches the disk in order; filling the temporary is neither.
 */
module StateFiles {
  import opened Bytes

  /** `stem` is everything up to the extension, directories included. */
  datatype Path = Path(stem: string, extension: string)
  {
    function WithExtension(other: string): Path {
      Path(stem, other)
    }
  }

  const TMP: string := "tmp"
  const BAK: string := "bak"

  type Disk = map<Path, bytes>

  datatype Job = Write(path: Path, body: bytes, keepBackup: bool) | Delete(path: Path) | Flush

  /** Where the writer is in the file it is writing. */
  datatype Stage = Idle | Filling(job: Job) | Filled(job: Job) | Moved(job: Job)

  /** `commits` are, per file, the bodies whose final rename happened, the last of them last. */
  datatype State = State(disk: Disk, queue: seq<Job>, stage: Stage, commits: Commits)

  type Commits = map<Path, seq<bytes>>

  function Committed(commits: Commits, path: Path): seq<bytes> {
    if path in commits then commits[path] else []
  }

  function OneMore(commits: Commits, path: Path, body: bytes): Commits {
    commits[path := Committed(commits, path) + [body]]
  }

  datatype Step =
    | Queue(job: Job)
    | Begin
    | NoDirectory
    | Fill(content: bytes)
    | FillDone
    | FillFailed
    | BackUp(moved: bool)
    | Rename(moved: bool)
    | Crash

  function Renamed(disk: Disk, from: Path, to: Path): Disk
    requires from in disk
  {
    (disk - {from})[to := disk[from]]
  }

  predicate Enabled(s: State, step: Step) {
    match step
    case Queue(_) => true
    case Begin => s.stage.Idle? && s.queue != []
    case NoDirectory => s.stage.Filling?
    case Fill(_) => s.stage.Filling?
    case FillDone => s.stage.Filling? && s.stage.job.Write?
    case FillFailed => s.stage.Filling?
    case BackUp(_) => s.stage.Filled? && s.stage.job.Write?
    case Rename(_) => s.stage.Moved? && s.stage.job.Write? && s.stage.job.path.WithExtension(TMP) in s.disk
    case Crash => true
  }

  function Next(s: State, step: Step): State
    requires Enabled(s, step)
  {
    match step
    case Queue(job) => s.(queue := s.queue + [job])
    case Begin =>
      var job := s.queue[0];
      var t := s.(queue := s.queue[1..]);
      if job.Write? then t.(stage := Filling(job))
      else if job.Delete? then t.(disk := s.disk - {job.path})
      else t
    case NoDirectory => s.(stage := Idle)
    case Fill(content) =>
      // Whatever part of it has reached the disk so far.
      if s.stage.job.Write? then s.(disk := s.disk[s.stage.job.path.WithExtension(TMP) := content]) else s
    case FillDone =>
      var job := s.stage.job;
      s.(disk := s.disk[job.path.WithExtension(TMP) := job.body], stage := Filled(job))
    case FillFailed => s.(stage := Idle)
    case BackUp(moved) =>
      var job := s.stage.job;
      if job.keepBackup && job.path in s.disk && moved then
        s.(disk := Renamed(s.disk, job.path, job.path.WithExtension(BAK)), stage := Moved(job))
      else s.(stage := Moved(job))
    case Rename(moved) =>
      var job := s.stage.job;
      if moved then
        s.(disk := Renamed(s.disk, job.path.WithExtension(TMP), job.path), stage := Idle,
           commits := OneMore(s.commits, job.path, job.body))
      else s.(stage := Idle)
    case Crash => s.(queue := [], stage := Idle)
  }

  function After(s: State, steps: seq<Step>): Option<State>
    decreases |steps|
  {
    if steps == [] then Just(s)
    else
      match After(s, steps[..|steps| - 1])
      case Nothing => Nothing
      case Just(before) =>
        var step := steps[|steps| - 1];
        if Enabled(before, step) then Just(Next(before, step)) else Nothing
  }

  // --------------------------------------------------------------- reading

  /** The file as the next run reads it: itself if it can be read, and its backup if not. */
  function Loaded<T>(parse: bytes -> Option<T>, disk: Disk, path: Path): Option<T> {
    if path in disk && parse(disk[path]).Just? then parse(disk[path])
    else if path.WithExtension(BAK) in disk then parse(disk[path.WithExtension(BAK)])
    else Nothing
  }

  method LoadState<T>(parse: bytes -> Option<T>, disk: Disk, path: Path) returns (r: Option<T>)
    ensures r == Loaded(parse, disk, path)
  {
    var candidates := [path, path.WithExtension(BAK)];
    assert candidates[0] == path && candidates[1] == path.WithExtension(BAK);
    for i := 0 to |candidates|
      invariant forall k | 0 <= k < i :: candidates[k] in disk ==> parse(disk[candidates[k]]).Nothing?
    {
      if candidates[i] in disk {
        r := parse(disk[candidates[i]]);
        if r.Just? {
          return;
        }
      }
    }
    r := Nothing;
  }

  // ------------------------------------------------------------- invariant

  /** No state file is itself called like a temporary or a backup. */
  predicate PlainlyNamed(path: Path) {
    path.extension !in {TMP, BAK}
  }

  /** A job is for this file, or shares with it neither name, temporary nor backup. A removal is never for it. */
  predicate Apart(job: Job, path: Path) {
    match job
    case Write(p, _, _) => PlainlyNamed(p) && (p == path || p.stem != path.stem)
    case Delete(p) => p.stem != path.stem
    case Flush => true
  }

  /** The committed body is in the file, or in the backup while there is no file. */
  predicate Kept(disk: Disk, commits: Commits, path: Path) {
    var bodies := Committed(commits, path);
    if bodies == [] then path !in disk && path.WithExtension(BAK) !in disk
    else if path in disk then disk[path] == bodies[|bodies| - 1]
    else path.WithExtension(BAK) in disk && disk[path.WithExtension(BAK)] == bodies[|bodies| - 1]
  }

  predicate Inv(s: State, path: Path) {
    && PlainlyNamed(path)
    && Kept(s.disk, s.commits, path)
    && (forall i | 0 <= i < |s.queue| :: Apart(s.queue[i], path))
    && (!s.stage.Idle? ==> s.stage.job.Write? && Apart(s.stage.job, path))
    && (s.stage.Filled? || s.stage.Moved? ==>
          var tmp := s.stage.job.path.WithExtension(TMP); tmp in s.disk && s.disk[tmp] == s.stage.job.body)
  }

  predicate ProperStep(step: Step, path: Path) {
    step.Queue? ==> Apart(step.job, path)
  }

  lemma StepKeeps(s: State, step: Step, path: Path)
    requires Inv(s, path) && Enabled(s, step) && ProperStep(step, path)
    ensures Inv(Next(s, step), path)
  {
    if step.BackUp? || step.Rename? {
      assert TMP[0] != BAK[0];
    }
  }

  lemma {:induction false} RunKeeps(s: State, steps: seq<Step>, path: Path)
    requires Inv(s, path) && After(s, steps).Just?
    requires forall i | 0 <= i < |steps| :: ProperStep(steps[i], path)
    ensures Inv(After(s, steps).value, path)
  {
    if steps != [] {
      var front := steps[..|steps| - 1];
      RunKeeps(s, front, path);
      StepKeeps(After(s, front).value, steps[|steps| - 1], path);
    }
  }

  // ------------------------------------------------------------ main results

  /** What a disk is found to hold when the daemon first starts on it. */
  function Found(disk: Disk, path: Path): Commits {
    if path in disk then map[path := [disk[path]]]
    else if path.WithExtension(BAK) in disk then map[path := [disk[path.WithExtension(BAK)]]]
    else map[]
  }

  /**
   After any steps, crashes and restarts among them, what is read back is exactly the body of
   the last save whose final rename happened, or what the disk held if none has since.
   */
  lemma LastCommittedIsRead<T>(parse: bytes -> Option<T>, disk: Disk, steps: seq<Step>, path: Path)
    requires PlainlyNamed(path)
    requires After(State(disk, [], Idle, Found(disk, path)), steps).Just?
    requires forall i | 0 <= i < |steps| :: ProperStep(steps[i], path)
    ensures var s := After(State(disk, [], Idle, Found(disk, path)), steps).value;
            var bodies := Committed(s.commits, path);
            if bodies == [] then Loaded(parse, s.disk, path).Nothing?
            else
              var body := bodies[|bodies| - 1];
              parse(body).Just? ==> Loaded(parse, s.disk, path) == parse(body)
  {
    RunKeeps(State(disk, [], Idle, Found(disk, path)), steps, path);
  }

  // ------------------------------------------------------------ the backup

  /** Every write of this file asks for the backup, and the rename to it does not fail. */
  predicate BacksUp(step: Step, path: Path) {
    && ProperStep(step, path)
    && (step.Queue? && step.job.Write? && step.job.path == path ==> step.job.keepBackup)
    && (step.BackUp? ==> step.moved)
  }

  predicate KeepsBackup(job: Job, path: Path) {
    job.Write? && job.path == path ==> job.keepBackup
  }

  /** While the file is there its backup is the body committed before it. */
  predicate BackedUp(s: State, path: Path) {
    var bodies, backup := Committed(s.commits, path), path.WithExtension(BAK);
    && Inv(s, path)
    && (forall i | 0 <= i < |s.queue| :: KeepsBackup(s.queue[i], path))
    && (!s.stage.Idle? ==> KeepsBackup(s.stage.job, path))
    && (s.stage.Moved? && s.stage.job.path == path ==> path !in s.disk)
    && (path in s.disk && |bodies| >= 2 ==> backup in s.disk && s.disk[backup] == bodies[|bodies| - 2])
  }

  lemma StepKeepsBackup(s: State, step: Step, path: Path)
    requires BackedUp(s, path) && Enabled(s, step) && BacksUp(step, path)
    ensures BackedUp(Next(s, step), path)
  {
    StepKeeps(s, step, path);
    if step.BackUp? || step.Rename? {
      assert TMP[0] != BAK[0];
    }
  }

  lemma {:induction false} RunKeepsBackup(s: State, steps: seq<Step>, path: Path)
    requires BackedUp(s, path) && After(s, steps).Just?
    requires forall i | 0 <= i < |steps| :: BacksUp(steps[i], path)
    ensures BackedUp(After(s, steps).value, path)
  {
    if steps != [] {
      var front := steps[..|steps| - 1];
      RunKeepsBackup(s, front, path);
      StepKeepsBackup(After(s, front).value, steps[|steps| - 1], path);
    }
  }

  /**
   After any steps, crashes among them, in which the backup was kept: a file that is damaged
   afterwards, or gone, loads as the body committed before the last.
   */
  lemma DamageCostsOneSave<T>(parse: bytes -> Option<T>, disk: Disk, steps: seq<Step>, path: Path, damaged: bytes)
    requires PlainlyNamed(path) && parse(damaged).Nothing?
    requires After(State(disk, [], Idle, Found(disk, path)), steps).Just?
    requires forall i | 0 <= i < |steps| :: BacksUp(steps[i], path)
    requires var s := After(State(disk, [], Idle, Found(disk, path)), steps).value;
             path in s.disk && |Committed(s.commits, path)| >= 2
    ensures var s := After(State(disk, [], Idle, Found(disk, path)), steps).value;
            var bodies := Committed(s.commits, path);
            && Loaded(parse, s.disk[path := damaged], path) == parse(bodies[|bodies| - 2])
            && Loaded(parse, s.disk - {path}, path) == parse(bodies[|bodies| - 2])
  {
    RunKeepsBackup(State(disk, [], Idle, Found(disk, path)), steps, path);
  }

  // ----------------------------------------------------------- the writer

  function Content(disk: Disk, path: Path): Option<bytes> {
    if path in disk then Just(disk[path]) else Nothing
  }

  /** What a job done leaves in a file. */
  function Effect(job: Job, path: Path, before: Option<bytes>): Option<bytes> {
    match job
    case Write(p, body, _) => if p == path then Just(body) else before
    case Delete(p) => if p == path then Nothing else before
    case Flush => before
  }

  /** What a queue of jobs, done in the order they were given, leaves in a file. */
  function Effects(jobs: seq<Job>, path: Path, before: Option<bytes>): Option<bytes> {
    if jobs == [] then before else Effects(jobs[1..], path, Effect(jobs[0], path, before))
  }

  /** The last job for a file has the last word: neither an earlier write nor an earlier delete comes back. */
  lemma {:induction false} LastJobWins(jobs: seq<Job>, path: Path, i: nat, before: Option<bytes>)
    requires i < |jobs| && !jobs[i].Flush? && jobs[i].path == path
    requires forall k | i < k < |jobs| :: jobs[k].Flush? || jobs[k].path != path
    ensures Effects(jobs, path, before) == if jobs[i].Write? then Just(jobs[i].body) else Nothing
  {
    if i == 0 {
      LeftAlone(jobs[1..], path, Effect(jobs[0], path, before));
    } else {
      LastJobWins(jobs[1..], path, i - 1, Effect(jobs[0], path, before));
    }
  }

  lemma {:induction false} LeftAlone(jobs: seq<Job>, path: Path, before: Option<bytes>)
    requires forall k | 0 <= k < |jobs| :: jobs[k].Flush? || jobs[k].path != path
    ensures Effects(jobs, path, before) == before
  {
    if jobs != [] {
      LeftAlone(jobs[1..], path, before);
    }
  }

  /** What the disk and the scheduler have in store for one job. */
  datatype Luck = Luck(directory: bool, parts: seq<bytes>, fill: bool, backUp: bool, rename: bool)

  class Writer {
    var disk: Disk
    var queue: seq<Job>
    ghost var stage: Stage
    ghost var commits: Commits

    constructor (disk: Disk, ghost commits: Commits)
      ensures View() == State(disk, [], Idle, commits)
    {
      this.disk := disk;
      queue := [];
      stage := Idle;
      this.commits := commits;
    }

    ghost function View(): State
      reads this
    {
      State(disk, queue, stage, commits)
    }

    method Send(job: Job)
      modifies this
      ensures View() == Next(old(View()), Queue(job))
    {
      queue := queue + [job];
    }

    /** One micro-step taken, for the record. */
    ghost method Took(start: State, steps: seq<Step>, before: State, step: Step) returns (more: seq<Step>)
      requires After(start, steps) == Just(before) && Enabled(before, step) && View() == Next(before, step)
      ensures more == steps + [step] && After(start, more) == Just(View())
    {
      more := steps + [step];
      assert more[..|steps|] == steps;
    }

    /**
     Writes one file the way state files have to be written. `steps` is the way it went, crash
     points and all: whatever holds after every step of every run holds wherever a kill finds
     this method.
     */
    method WriteFile(job: Job, luck: Luck, ghost start: State, ghost soFar: seq<Step>)
      returns (ok: bool, ghost steps: seq<Step>)
      requires job.Write? && PlainlyNamed(job.path)
      requires stage == Filling(job) && After(start, soFar) == Just(View())
      modifies this`disk, this`stage, this`commits
      ensures stage.Idle? && After(start, steps) == Just(View())
      ensures soFar <= steps && forall i | |soFar| <= i < |steps| :: !steps[i].Queue? && !steps[i].Crash?
      ensures commits == if ok then OneMore(old(commits), job.path, job.body) else old(commits)
      ensures ok == (luck.directory && luck.fill && luck.rename)
      ensures var backedUp := luck.directory && luck.fill && job.keepBackup && job.path in old(disk) && luck.backUp;
              && Content(disk, job.path) == (if ok then Just(job.body) else if backedUp then Nothing else Content(old(disk), job.path))
              && Content(disk, Path(job.path.stem, "bak"))
                 == Content(old(disk), if backedUp then job.path else Path(job.path.stem, "bak"))
      ensures forall p: Path | p.stem != job.path.stem || p.extension !in {job.path.extension, "bak", "tmp"} ::
                Content(disk, p) == Content(old(disk), p)
    {
      hide After;
      steps := soFar;
      ghost var s := View();
      if !luck.directory {
        stage := Idle;
        steps := Took(start, steps, s, NoDirectory);
        return false, steps;
      }
      var temporary := job.path.WithExtension(TMP);
      for i := 0 to |luck.parts|
        invariant stage == Filling(job) && commits == old(commits)
        invariant forall p: Path | p.stem != job.path.stem || p.extension != TMP :: Content(disk, p) == Content(old(disk), p)
        invariant After(start, steps) == Just(View())
        invariant soFar <= steps && forall k | |soFar| <= k < |steps| :: !steps[k].Queue? && !steps[k].Crash?
      {
        s := View();
        disk := disk[temporary := luck.parts[i]];
        steps := Took(start, steps, s, Fill(luck.parts[i]));
      }
      s := View();
      if !luck.fill {
        stage := Idle;
        steps := Took(start, steps, s, FillFailed);
        return false, steps;
      }
      disk := disk[temporary := job.body];
      stage := Filled(job);
      steps := Took(start, steps, s, FillDone);
      ok, steps := PutInPlace(job, luck, start, steps);
    }

    /** The two renames: the old file to its backup, the temporary over it. */
    method PutInPlace(job: Job, luck: Luck, ghost start: State, ghost soFar: seq<Step>)
      returns (ok: bool, ghost steps: seq<Step>)
      requires job.Write? && PlainlyNamed(job.path)
      requires stage == Filled(job) && After(start, soFar) == Just(View())
      requires var temporary := job.path.WithExtension(TMP); temporary in disk && disk[temporary] == job.body
      modifies this`disk, this`stage, this`commits
      ensures stage.Idle? && After(start, steps) == Just(View())
      ensures soFar <= steps && forall i | |soFar| <= i < |steps| :: !steps[i].Queue? && !steps[i].Crash?
      ensures ok == luck.rename
      ensures var backedUp := job.keepBackup && job.path in old(disk) && luck.backUp;
              && Content(disk, job.path) == (if ok then Just(job.body) else if backedUp then Nothing else Content(old(disk), job.path))
              && Content(disk, Path(job.path.stem, "bak"))
                 == Content(old(disk), if backedUp then job.path else Path(job.path.stem, "bak"))
      ensures forall p: Path | p.stem != job.path.stem || p.extension !in {job.path.extension, "bak", "tmp"} ::
                Content(disk, p) == Content(old(disk), p)
      ensures commits == if ok then OneMore(old(commits), job.path, job.body) else old(commits)
    {
      hide After;
      assert TMP[0] != BAK[0];
      var temporary := job.path.WithExtension(TMP);
      ghost var s := View();
      if job.keepBackup && job.path in disk && luck.backUp {
        disk := Renamed(disk, job.path, job.path.WithExtension(BAK));
      }
      stage := Moved(job);
      steps := Took(start, soFar, s, BackUp(luck.backUp));
      s := View();
      if luck.rename {
        disk := Renamed(disk, temporary, job.path);
        commits := OneMore(commits, job.path, job.body);
      }
      stage := Idle;
      steps := Took(start, steps, s, Rename(luck.rename));
      ok := luck.rename;
    }

    /** Takes one job off the queue and does it. */
    method RunOne(luck: Luck) returns (ok: bool, ghost steps: seq<Step>)
      requires queue != [] && stage.Idle?
      requires queue[0].Write? ==> PlainlyNamed(queue[0].path)
      modifies this
      ensures stage.Idle? && queue == old(queue[1..])
      ensures After(old(View()), steps) == Just(View())
      ensures forall i | 0 <= i < |steps| :: !steps[i].Queue? && !steps[i].Crash?
      ensures ok ==>
                && (forall p | PlainlyNamed(p) :: Content(disk, p) == Effect(old(queue[0]), p, Content(old(disk), p)))
                && commits == if old(queue[0]).Write? then OneMore(old(commits), old(queue[0]).path, old(queue[0]).body)
                              else old(commits)
      ensures !ok ==> old(queue[0]).Write? && commits == old(commits)
      ensures luck.directory && luck.fill && luck.rename ==> ok
    {
      hide After;
      ghost var start := View();
      StartOf(start);
      var job := queue[0];
      queue := queue[1..];
      match job
      case Flush =>
        steps := Took(start, [], start, Begin);
        ok := true;
      case Delete(path) =>
        disk := disk - {path};
        steps := Took(start, [], start, Begin);
        ok := true;
      case Write(_, _, _) =>
        stage := Filling(job);
        steps := Took(start, [], start, Begin);
        ok, steps := WriteFile(job, luck, start, steps);
    }

    /** Everything queued so far, on a disk that plays along: what `flush` waits for. */
    method RunAll()
      requires stage.Idle?
      requires forall i | 0 <= i < |queue| :: queue[i].Write? ==> PlainlyNamed(queue[i].path)
      modifies this
      ensures queue == [] && stage.Idle?
      ensures forall p | PlainlyNamed(p) :: Content(disk, p) == Effects(old(queue), p, Content(old(disk), p))
    {
      while queue != []
        invariant stage.Idle?
        invariant forall i | 0 <= i < |queue| :: queue[i].Write? ==> PlainlyNamed(queue[i].path)
        invariant forall p | PlainlyNamed(p) ::
          Effects(queue, p, Content(disk, p)) == Effects(old(queue), p, Content(old(disk), p))
        decreases |queue|
      {
        ghost var was, head := disk, queue[0];
        var ok, steps := RunOne(Luck(true, [], true, true, true));
        assert forall p | PlainlyNamed(p) :: Content(disk, p) == Effect(head, p, Content(was, p));
      }
    }
  }

  lemma StartOf(s: State)
    ensures After(s, []) == Just(s)
  {
  }
}
