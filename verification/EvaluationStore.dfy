/** The evaluation root shared by any number of processes: content-addressed directories, `state.json` and the claim
    file that opens the held-out cases once. Each step below is one atomic action on the file system (exclusive
    create, write, rename, unlink, whole-file read); any process may raise or be killed between two of them. */
module EvaluationStore {
  import opened Prelude

  type Digest = string

  datatype Family = Corpora | Reservations | Runs | Comparisons

  datatype Key = Key(family: Family, digest: Digest)

  /** The digests and counters of `state.json`. */
  datatype State = State(generation: nat, corpus: Option<Digest>, previousCorpus: Option<Digest>,
                         reservation: Option<Digest>, previousReservation: Option<Digest>,
                         run: Option<Digest>, previousRun: Option<Digest>,
                         openedCorpus: Option<Digest>, openedLabel: Option<string>, heldOutRun: Option<Digest>,
                         corpusComparison: Option<Digest>, reservationComparison: Option<Digest>,
                         runComparison: Option<Digest>)

  const INITIAL_STATE := State(0, None, None, None, None, None, None, None, None, None, None, None, None)

  datatype Claim = Claim(corpus: Digest, runLabel: string)

  /** The claim file's bytes: a proper prefix of a claim, or a whole one. */
  datatype ClaimFile = Unfinished | Complete(claim: Claim)

  datatype Task = Freeze | Reserve | Run(corpus: Option<Digest>, runLabel: string, open: bool)

  datatype Stage =
    | Starting
    | Checked
      // freeze and reserve
    | Holding(snapshot: State)
    | Stored(snapshot: State, digest: Digest)
    | Compared(snapshot: State, digest: Digest)
      // run
    | Loaded(corpus: Digest)
    | Guarded(corpus: Digest)
    | Claiming(corpus: Digest)
    | Unlinking(corpus: Digest)
    | Claimed(corpus: Digest)
    | Recording(corpus: Digest, snapshot: State)
    | Scoring(corpus: Digest)
    | Scored(corpus: Digest)
    | RunStored(corpus: Digest, digest: Digest)
    | RunHolding(corpus: Digest, digest: Digest, snapshot: State)
    | RunCompared(corpus: Digest, digest: Digest, snapshot: State)
      // ended
    | Finished
    | Refused
    | Failed
    | Killed

  datatype Process = Process(task: Task, stage: Stage)

  /** A run that began to score held-out cases. */
  datatype Opening = Opening(pid: nat, corpus: Digest, runLabel: string)

  /** The shared files, with two history variables: who created the present claim file, and the openings so far. */
  datatype Files = Files(claim: Option<ClaimFile>, creator: Option<nat>, state: State, store: map<Key, Bytes>,
                         openings: set<Opening>)

  datatype System = System(files: Files, processes: map<nat, Process>)

  const EMPTY_FILES := Files(None, None, INITIAL_STATE, map[], {})
  const EMPTY_SYSTEM := System(EMPTY_FILES, map[])

  /** How the environment resolves one step of a process: it goes on, writes part of the claim, writes all of it, or
      the step raises. */
  datatype Outcome = Proceeds | WritesPart | WritesAll | Raises

  datatype Event =
    | Start(pid: nat, task: Task)
    | Act(pid: nat, outcome: Outcome, document: Bytes)
    | Kill(pid: nat)

  // ----- single steps

  /** What a step leaves behind: the shared files and the acting process's next stage. */
  datatype Effect = Effect(files: Files, stage: Stage)

  /** Reading the claim either finds no file, or a claim, or fails on unfinished bytes. */
  function ReadClaim(files: Files): Result<Option<Claim>, ()> {
    match files.claim
    case None => Ok(None)
    case Some(Unfinished) => Err(())
    case Some(Complete(c)) => Ok(Some(c))
  }

  /** The guard every freeze, reservation and run starts with. */
  function RejectAfterOpening(files: Files): Effect {
    match ReadClaim(files)
    case Ok(None) => Effect(files, Checked)
    case _ => Effect(files, Refused)
  }

  /** `read_state` refuses a state that names a label or run without an opened corpus. */
  predicate Readable(state: State) {
    state.openedCorpus.None? ==> state.openedLabel.None? && state.heldOutRun.None?
  }

  function FamilyOf(task: Task): Family {
    match task
    case Freeze => Corpora
    case Reserve => Reservations
    case Run(_, _, _) => Runs
  }

  /** Renames a finished directory into place, or finds the same content already there. */
  function Publish(files: Files, family: Family, document: Bytes, hash: Bytes -> Digest): Option<Files> {
    var key := Key(family, hash(document));
    if key !in files.store then Some(files.(store := files.store[key := document]))
    else if hash(files.store[key]) == key.digest then Some(files)
    else None
  }

  function NextFrozen(task: Task, snapshot: State, digest: Digest): State {
    if task.Freeze? then
      snapshot.(corpus := Some(digest), previousCorpus := snapshot.corpus, generation := snapshot.generation + 1)
    else
      snapshot.(reservation := Some(digest), previousReservation := snapshot.reservation,
                generation := snapshot.generation + 1)
  }

  function NextOpened(snapshot: State, corpus: Digest, runLabel: string): State {
    snapshot.(openedCorpus := Some(corpus), openedLabel := Some(runLabel), generation := snapshot.generation + 1)
  }

  function NextRun(snapshot: State, digest: Digest, open: bool): State {
    snapshot.(run := Some(digest), previousRun := snapshot.run,
              heldOutRun := if open then Some(digest) else None, generation := snapshot.generation + 1)
  }

  /** The document a freeze or reservation replaces. */
  function CurrentOf(task: Task, snapshot: State): Option<Digest> {
    if task.Freeze? then snapshot.corpus else snapshot.reservation
  }

  predicate Replaces(task: Task, snapshot: State, digest: Digest) {
    CurrentOf(task, snapshot).Some? && CurrentOf(task, snapshot) != Some(digest)
  }

  function WithComparison(task: Task, snapshot: State, comparison: Digest): State {
    match task
    case Freeze => snapshot.(corpusComparison := Some(comparison))
    case Reserve => snapshot.(reservationComparison := Some(comparison))
    case Run(_, _, _) => snapshot.(runComparison := Some(comparison))
  }

  /** A freeze or reservation past its guard. */
  function ActFreeze(files: Files, task: Task, stage: Stage, document: Bytes, hash: Bytes -> Digest): Effect {
    match stage
    case Checked => if Readable(files.state) then Effect(files, Holding(files.state)) else Effect(files, Failed)
    case Holding(snapshot) =>
      (match Publish(files, FamilyOf(task), document, hash)
       case None => Effect(files, Failed)
       case Some(stored) => Effect(stored, Stored(snapshot, hash(document))))
    case Stored(snapshot, digest) =>
      if !Replaces(task, snapshot, digest) then Effect(files, Compared(snapshot, digest))
      else
        (match Publish(files, Comparisons, document, hash)
         case None => Effect(files, Failed)
         case Some(stored) => Effect(stored, Compared(WithComparison(task, snapshot, hash(document)), digest)))
    case Compared(snapshot, digest) => Effect(files.(state := NextFrozen(task, snapshot, digest)), Finished)
    case _ => Effect(files, stage)
  }

  /** The corpus a run works on: the one asked for or the current one, if its directory is intact. */
  function LoadCorpus(files: Files, asked: Option<Digest>, hash: Bytes -> Digest): Option<Digest> {
    var corpus := if asked.Some? then asked else if Readable(files.state) then files.state.corpus else None;
    if corpus.Some? && Key(Corpora, corpus.value) in files.store
       && hash(files.store[Key(Corpora, corpus.value)]) == corpus.value
    then corpus else None
  }

  /** A run up to the point where it may evaluate cases. */
  function ActOpening(files: Files, pid: nat, task: Task, stage: Stage, outcome: Outcome, hash: Bytes -> Digest): Effect
    requires task.Run?
  {
    match stage
    case Checked =>
      (match LoadCorpus(files, task.corpus, hash)
       case None => Effect(files, Failed)
       case Some(corpus) => Effect(files, Loaded(corpus)))
    case Loaded(corpus) =>
      if !task.open then Effect(files, Scoring(corpus))
      else if Readable(files.state) && files.state.corpus == Some(corpus) then Effect(files, Guarded(corpus))
      else Effect(files, Failed)
    case Guarded(corpus) =>
      if files.claim.Some? then Effect(files, Refused)
      else Effect(files.(claim := Some(Unfinished), creator := Some(pid)), Claiming(corpus))
    case Claiming(corpus) =>
      (match outcome
       case Raises => Effect(files, Unlinking(corpus))
       case WritesPart => Effect(files, stage)
       case WritesAll => Effect(files.(claim := Some(Complete(Claim(corpus, task.runLabel)))), stage)
       case Proceeds =>
         Effect(files.(claim := Some(Complete(Claim(corpus, task.runLabel)))), Claimed(corpus)))
    case Unlinking(corpus) => Effect(files.(claim := None, creator := None), Failed)
    case Claimed(corpus) =>
      if Readable(files.state) then Effect(files, Recording(corpus, files.state)) else Effect(files, Failed)
    case Recording(corpus, snapshot) =>
      Effect(files.(state := NextOpened(snapshot, corpus, task.runLabel)), Scoring(corpus))
    case _ => Effect(files, stage)
  }

  /** A run that evaluates its cases, stores its result and records it. */
  function ActScoring(files: Files, pid: nat, task: Task, stage: Stage, document: Bytes, hash: Bytes -> Digest): Effect
    requires task.Run?
  {
    match stage
    case Scoring(corpus) =>
      if task.open then
        Effect(files.(openings := files.openings + {Opening(pid, corpus, task.runLabel)}), Scored(corpus))
      else Effect(files, Scored(corpus))
    case Scored(corpus) =>
      (match Publish(files, Runs, document, hash)
       case None => Effect(files, Failed)
       case Some(stored) => Effect(stored, RunStored(corpus, hash(document))))
    case RunStored(corpus, digest) =>
      if Readable(files.state) then Effect(files, RunHolding(corpus, digest, files.state)) else Effect(files, Failed)
    case RunHolding(corpus, digest, snapshot) =>
      if snapshot.run.None? then Effect(files, RunCompared(corpus, digest, snapshot))
      else
        (match Publish(files, Comparisons, document, hash)
         case None => Effect(files, Failed)
         case Some(stored) => Effect(stored, RunCompared(corpus, digest, WithComparison(task, snapshot, hash(document)))))
    case RunCompared(corpus, digest, snapshot) =>
      Effect(files.(state := NextRun(snapshot, digest, task.open)), Finished)
    case _ => Effect(files, stage)
  }

  predicate Ended(stage: Stage) {
    stage.Finished? || stage.Refused? || stage.Failed? || stage.Killed?
  }

  predicate EvaluatesCases(stage: Stage) {
    stage.Scoring? || stage.Scored? || stage.RunStored? || stage.RunHolding? || stage.RunCompared?
  }

  function ActProcess(files: Files, pid: nat, p: Process, outcome: Outcome, document: Bytes, hash: Bytes -> Digest): Effect {
    if Ended(p.stage) then Effect(files, p.stage)
    else if outcome.Raises? && !p.stage.Claiming? then Effect(files, Failed)
    else if p.stage.Starting? then RejectAfterOpening(files)
    else if !p.task.Run? then ActFreeze(files, p.task, p.stage, document, hash)
    else if EvaluatesCases(p.stage) then ActScoring(files, pid, p.task, p.stage, document, hash)
    else ActOpening(files, pid, p.task, p.stage, outcome, hash)
  }

  function Step(s: System, e: Event, hash: Bytes -> Digest): System {
    match e
    case Start(pid, task) =>
      if pid in s.processes then s else s.(processes := s.processes[pid := Process(task, Starting)])
    case Kill(pid) =>
      if pid !in s.processes || Ended(s.processes[pid].stage) then s
      else s.(processes := s.processes[pid := s.processes[pid].(stage := Killed)])
    case Act(pid, outcome, document) =>
      if pid !in s.processes then s
      else
        var effect := ActProcess(s.files, pid, s.processes[pid], outcome, document, hash);
        System(effect.files, s.processes[pid := s.processes[pid].(stage := effect.stage)])
  }

  /** Any interleaving: the events in the order they take effect. */
  function Execute(s: System, events: seq<Event>, hash: Bytes -> Digest): System {
    if events == [] then s else Step(Execute(s, events[..|events| - 1], hash), events[|events| - 1], hash)
  }
}
