/** How `state.json` evolves: exactly counted updates when operations do not overlap, and what overlap can lose. */
module StateGenerations {
  import opened Prelude
  import opened EvaluationStore
  import opened HeldOutSafety

  // ----- one update

  /** The state document a process is about to build its update on. */
  function SnapshotOf(stage: Stage): Option<State> {
    match stage
    case Holding(snapshot) => Some(snapshot)
    case Stored(snapshot, _) => Some(snapshot)
    case Compared(snapshot, _) => Some(snapshot)
    case Recording(_, snapshot) => Some(snapshot)
    case RunHolding(_, _, snapshot) => Some(snapshot)
    case RunCompared(_, _, snapshot) => Some(snapshot)
    case _ => None
  }

  predicate AboutToWrite(p: Process) {
    if p.task.Run? then p.stage.Recording? || p.stage.RunCompared? else p.stage.Compared?
  }

  /** An update raises `generation` exactly when no overlapping update has carried it past the one it was built on. */
  lemma UpdateRaisesGeneration(s: System, pid: nat, document: Bytes, hash: Bytes -> Digest)
    requires pid in s.processes && AboutToWrite(s.processes[pid])
    ensures var snapshot := SnapshotOf(s.processes[pid].stage).value;
            Step(s, Act(pid, Proceeds, document), hash).files.state.generation > s.files.state.generation
            <==> s.files.state.generation <= snapshot.generation
  {}

  // ----- operations one after another

  predicate Live(s: System, pid: nat) {
    pid in s.processes && !Ended(s.processes[pid].stage)
  }

  ghost predicate OneAtATime(s: System) {
    forall a, b | Live(s, a) && Live(s, b) :: a == b
  }

  /** No two operations ever overlap; each may still be cut off at any step. */
  ghost predicate Sequential(events: seq<Event>, hash: Bytes -> Digest) {
    forall n | 0 <= n <= |events| :: OneAtATime(Execute(EMPTY_SYSTEM, events[..n], hash))
  }

  /** The same document up to the comparisons already published for the update. */
  predicate SameUpToComparisons(snapshot: State, state: State) {
    state == snapshot.(corpusComparison := state.corpusComparison, reservationComparison := state.reservationComparison,
                       runComparison := state.runComparison)
  }

  /** A live process works on the present state document, and an opening run has its opening on record. */
  ghost predicate UpToDate(s: System) {
    Readable(s.files.state) && forall pid | Live(s, pid) :: InStep(s.files.state, s.processes[pid])
  }

  lemma UpToDateStep(s: System, e: Event, hash: Bytes -> Digest)
    requires OneAtATime(s) && OneAtATime(Step(s, e, hash)) && UpToDate(s)
    ensures UpToDate(Step(s, e, hash))
    ensures Step(s, e, hash).files.state == s.files.state
            || Step(s, e, hash).files.state.generation == s.files.state.generation + 1
  {
    if e.Act? && Live(s, e.pid) {
      var p := s.processes[e.pid];
      ActKeepsState(s, e.pid, e.outcome, e.document, hash);
      forall pid | Live(Step(s, e, hash), pid)
        ensures pid == e.pid
      {
        assert Live(s, pid);
      }
    }
  }

  /** What holds of a live process and the state document, and goes on holding across a step. */
  predicate InStep(state: State, p: Process) {
    && Readable(state)
    && (SnapshotOf(p.stage).Some? ==> SameUpToComparisons(SnapshotOf(p.stage).value, state))
    && (p.task.Run? && p.task.open && EvaluatesCases(p.stage) ==> state.openedCorpus.Some?)
  }

  /** The process stays in step unless it ended, and the document counts at most one update. */
  predicate StaysInStep(files: Files, p: Process, effect: Effect) {
    && Readable(effect.files.state) && (Ended(effect.stage) || InStep(effect.files.state, p.(stage := effect.stage)))
    && (effect.files.state == files.state || effect.files.state.generation == files.state.generation + 1)
  }

  lemma FreezeInStep(files: Files, p: Process, document: Bytes, hash: Bytes -> Digest)
    requires InStep(files.state, p) && !p.task.Run?
    ensures StaysInStep(files, p, ActFreeze(files, p.task, p.stage, document, hash))
  {}

  lemma OpeningInStep(files: Files, pid: nat, p: Process, outcome: Outcome, hash: Bytes -> Digest)
    requires InStep(files.state, p) && p.task.Run? && !EvaluatesCases(p.stage)
    ensures StaysInStep(files, p, ActOpening(files, pid, p.task, p.stage, outcome, hash))
  {
    hide LoadCorpus;
  }

  lemma ScoringInStep(files: Files, pid: nat, p: Process, document: Bytes, hash: Bytes -> Digest)
    requires InStep(files.state, p) && p.task.Run?
    ensures StaysInStep(files, p, ActScoring(files, pid, p.task, p.stage, document, hash))
  {}

  lemma ActKeepsState(s: System, pid: nat, outcome: Outcome, document: Bytes, hash: Bytes -> Digest)
    requires Live(s, pid) && UpToDate(s)
    ensures StaysInStep(s.files, s.processes[pid],
                        ActProcess(s.files, pid, s.processes[pid], outcome, document, hash))
  {
    var p := s.processes[pid];
    assert InStep(s.files.state, p);
    if !p.task.Run? {
      FreezeInStep(s.files, p, document, hash);
    } else if EvaluatesCases(p.stage) {
      ScoringInStep(s.files, pid, p, document, hash);
    } else {
      OpeningInStep(s.files, pid, p, outcome, hash);
    }
    hide ActFreeze, ActOpening, ActScoring, SameUpToComparisons;
  }

  lemma {:induction false} SequentialUpToDate(events: seq<Event>, hash: Bytes -> Digest)
    requires Sequential(events, hash)
    ensures UpToDate(Execute(EMPTY_SYSTEM, events, hash))
  {
    assert events[..|events|] == events;
    if events != [] {
      var init := events[..|events| - 1];
      SequentialPrefix(events, hash);
      SequentialUpToDate(init, hash);
      UpToDateStep(Execute(EMPTY_SYSTEM, init, hash), events[|events| - 1], hash);
    }
  }

  lemma SequentialPrefix(events: seq<Event>, hash: Bytes -> Digest)
    requires Sequential(events, hash) && events != []
    ensures Sequential(events[..|events| - 1], hash)
    ensures OneAtATime(Execute(EMPTY_SYSTEM, events[..|events| - 1], hash))
    ensures OneAtATime(Execute(EMPTY_SYSTEM, events, hash))
  {
    var init := events[..|events| - 1];
    forall n | 0 <= n <= |init|
      ensures OneAtATime(Execute(EMPTY_SYSTEM, init[..n], hash))
    {
      assert init[..n] == events[..n];
    }
    assert init[..|init|] == init && events[..|events|] == events;
  }

  /** Run one after another, cut off wherever, the operations leave a state that stays readable and whose
      `generation` counts its updates: each change of the document adds exactly one. */
  lemma SequentialGenerations(events: seq<Event>, hash: Bytes -> Digest)
    requires Sequential(events, hash) && events != []
    ensures var before := Execute(EMPTY_SYSTEM, events[..|events| - 1], hash).files.state;
            var after := Execute(EMPTY_SYSTEM, events, hash).files.state;
            && Readable(after)
            && (after == before || after.generation == before.generation + 1)
  {
    SequentialPrefix(events, hash);
    SequentialUpToDate(events[..|events| - 1], hash);
    UpToDateStep(Execute(EMPTY_SYSTEM, events[..|events| - 1], hash), events[|events| - 1], hash);
  }

  // ----- overlap

  ghost predicate Reachable(s: System, hash: Bytes -> Digest) {
    exists events: seq<Event> :: s == Execute(EMPTY_SYSTEM, events, hash)
  }

  lemma ReachableStep(s: System, e: Event, hash: Bytes -> Digest) returns (next: System)
    requires Reachable(s, hash)
    ensures next == Step(s, e, hash) && Reachable(next, hash)
  {
    next := Step(s, e, hash);
    var events: seq<Event> :| s == Execute(EMPTY_SYSTEM, events, hash);
    assert (events + [e])[..|events|] == events;
    assert next == Execute(EMPTY_SYSTEM, events + [e], hash);
  }

  /** Lets process `pid` go on from the stage it is in. */
  lemma Proceed(s: System, pid: nat, document: Bytes, hash: Bytes -> Digest) returns (next: System)
    requires Reachable(s, hash) && Live(s, pid)
    ensures Reachable(next, hash)
    ensures var effect := ActProcess(s.files, pid, s.processes[pid], Proceeds, document, hash);
            next == System(effect.files, s.processes[pid := s.processes[pid].(stage := effect.stage)])
  {
    next := ReachableStep(s, Act(pid, Proceeds, document), hash);
  }

  /** The stage belongs to the kind of operation, and the snapshot it holds was readable. */
  predicate WellStaged(p: Process) {
    && (SnapshotOf(p.stage).Some? ==> Readable(SnapshotOf(p.stage).value))
    && (p.stage.Holding? || p.stage.Stored? || p.stage.Compared? ==> !p.task.Run?)
    && (p.stage.Recording? || EvaluatesCases(p.stage) ==> p.task.Run?)
    && (OpeningStage(p.stage) ==> p.task.Run? && p.task.open)
  }

  lemma WellStagedAct(files: Files, pid: nat, p: Process, outcome: Outcome, document: Bytes, hash: Bytes -> Digest)
    requires WellStaged(p)
    ensures WellStaged(p.(stage := ActProcess(files, pid, p, outcome, document, hash).stage))
  {
    hide LoadCorpus, Publish, Replaces;
  }

  ghost predicate AllWellStaged(s: System) {
    forall pid | pid in s.processes :: WellStaged(s.processes[pid])
  }

  lemma {:induction false} ExecuteWellStaged(events: seq<Event>, hash: Bytes -> Digest)
    ensures AllWellStaged(Execute(EMPTY_SYSTEM, events, hash))
  {
    if events != [] {
      var e := events[|events| - 1];
      ExecuteWellStaged(events[..|events| - 1], hash);
      var before := Execute(EMPTY_SYSTEM, events[..|events| - 1], hash);
      if e.Act? && e.pid in before.processes {
        WellStagedAct(before.files, e.pid, before.processes[e.pid], e.outcome, e.document, hash);
        hide WellStaged, ActProcess;
      }
    }
  }

  /** What a write makes of the record of the opening, in every reachable system and whatever happened since the write's
      snapshot was read: the document names an opened corpus afterwards exactly when the snapshot did or the write is
      the one that records it, so a record made in between is lost; and every later operation can read the document
      exactly unless the write is the result of an opening run over a snapshot from which the record was missing. */
  lemma WriteLosesRecordExactly(s: System, pid: nat, document: Bytes, hash: Bytes -> Digest)
    requires Reachable(s, hash)
    requires pid in s.processes && AboutToWrite(s.processes[pid])
    ensures var p := s.processes[pid];
            var snapshot := SnapshotOf(p.stage).value;
            var after := Step(s, Act(pid, Proceeds, document), hash).files.state;
            && (after.openedCorpus.Some? <==> snapshot.openedCorpus.Some? || p.stage.Recording?)
            && (Readable(after) <==> !(p.stage.RunCompared? && p.task.open && snapshot.openedCorpus.None?))
  {
    var events: seq<Event> :| s == Execute(EMPTY_SYSTEM, events, hash);
    ExecuteWellStaged(events, hash);
    assert WellStaged(s.processes[pid]);
    hide Reachable, Execute;
  }

  /** The frozen corpus differs from the one before it. */
  predicate NewCorpus(snapshot: State, document: Bytes, hash: Bytes -> Digest) {
    snapshot.corpus.Some? && snapshot.corpus != Some(hash(document))
  }

  /** The store with a document; one already published under its digest stays. */
  function Added(store: map<Key, Bytes>, family: Family, document: Bytes, hash: Bytes -> Digest): map<Key, Bytes> {
    var key := Key(family, hash(document));
    if key in store then store else store[key := document]
  }

  /** The store with a corpus, and with its comparison to the one before it if they differ. */
  function WithCorpus(store: map<Key, Bytes>, snapshot: State, document: Bytes, comparison: Bytes, hash: Bytes -> Digest)
    : map<Key, Bytes>
  {
    var filled := Added(store, Corpora, document, hash);
    if NewCorpus(snapshot, document, hash) then Added(filled, Comparisons, comparison, hash) else filled
  }

  /** The store with a result, and with its comparison to the run before it if there was one. */
  function WithResult(store: map<Key, Bytes>, snapshot: State, result: Bytes, comparison: Bytes, hash: Bytes -> Digest)
    : map<Key, Bytes>
  {
    var filled := Added(store, Runs, result, hash);
    if snapshot.run.Some? then Added(filled, Comparisons, comparison, hash) else filled
  }

  /** In a reachable system publishing always succeeds. */
  lemma PublishAdds(s: System, family: Family, document: Bytes, hash: Bytes -> Digest)
    requires Reachable(s, hash)
    ensures Publish(s.files, family, document, hash) == Some(s.files.(store := Added(s.files.store, family, document, hash)))
  {
    var events: seq<Event> :| s == Execute(EMPTY_SYSTEM, events, hash);
    ExecuteKeepsInv(events, hash);
  }

  /** In a reachable system the current corpus loads. */
  lemma CurrentCorpusLoads(s: System, hash: Bytes -> Digest)
    requires Reachable(s, hash) && Readable(s.files.state)
    ensures LoadCorpus(s.files, None, hash) == s.files.state.corpus
  {
    var events: seq<Event> :| s == Execute(EMPTY_SYSTEM, events, hash);
    ExecuteKeepsInv(events, hash);
  }

  /** What a freeze on `snapshot` writes as the next state document. */
  function Frozen(snapshot: State, document: Bytes, comparison: Bytes, hash: Bytes -> Digest): State {
    var compared := if NewCorpus(snapshot, document, hash) then Some(hash(comparison)) else snapshot.corpusComparison;
    snapshot.(corpus := Some(hash(document)), previousCorpus := snapshot.corpus, corpusComparison := compared,
              generation := snapshot.generation + 1)
  }

  /** What a run on `snapshot` writes. */
  function Recorded(snapshot: State, result: Bytes, comparison: Bytes, hash: Bytes -> Digest): State {
    var compared := if snapshot.run.Some? then Some(hash(comparison)) else snapshot.runComparison;
    snapshot.(run := Some(hash(result)), previousRun := snapshot.run, heldOutRun := Some(hash(result)),
              runComparison := compared, generation := snapshot.generation + 1)
  }

  /** An undisturbed freeze publishes its corpus and makes it the current one, with the comparison to the one it
      replaces if that differs, counting one update. */
  lemma UndisturbedFreeze(before: System, pid: nat, document: Bytes, comparison: Bytes, hash: Bytes -> Digest) returns (s: System)
    requires Reachable(before, hash) && pid !in before.processes
    requires before.files.claim.None? && Readable(before.files.state)
    ensures Reachable(s, hash)
    ensures s.files == before.files.(
                         store := WithCorpus(before.files.store, before.files.state, document, comparison, hash),
                         state := Frozen(before.files.state, document, comparison, hash))
    ensures s.processes == before.processes[pid := Process(Freeze, Finished)]
  {
    hide Reachable, Execute, ActOpening, ActScoring, LoadCorpus, Frozen, WithCorpus;
    s := HeldFreeze(before, pid, hash);
    s := FinishFreeze(s, pid, before.files.state, document, comparison, hash);
    assert s.processes == before.processes[pid := Process(Freeze, Finished)];
  }

  /** A freeze past its guard holds the state document. */
  lemma HeldFreeze(before: System, pid: nat, hash: Bytes -> Digest) returns (s: System)
    requires Reachable(before, hash) && pid !in before.processes
    requires before.files.claim.None? && Readable(before.files.state)
    ensures Reachable(s, hash)
    ensures s == System(before.files, before.processes[pid := Process(Freeze, Holding(before.files.state))])
  {
    hide Reachable, Execute, ActOpening, ActScoring, LoadCorpus;
    s := ReachableStep(before, Start(pid, Freeze), hash);
    s := Proceed(s, pid, [], hash);
    s := Proceed(s, pid, [], hash);
    assert s.processes == before.processes[pid := Process(Freeze, Holding(before.files.state))];
  }

  /** A freeze past its guard publishes its corpus and overwrites the state document, whatever happened since. */
  lemma FinishFreeze(before: System, pid: nat, snapshot: State, document: Bytes, comparison: Bytes, hash: Bytes -> Digest)
      returns (s: System)
    requires Reachable(before, hash)
    requires pid in before.processes && before.processes[pid] == Process(Freeze, Holding(snapshot))
    ensures Reachable(s, hash)
    ensures s.files == before.files.(store := WithCorpus(before.files.store, snapshot, document, comparison, hash),
                                     state := Frozen(snapshot, document, comparison, hash))
    ensures s.processes == before.processes[pid := Process(Freeze, Finished)]
  {
    hide Reachable, Execute, ActOpening, ActScoring;
    hide Publish, Added;
    PublishAdds(before, Corpora, document, hash);
    s := Proceed(before, pid, document, hash);
    PublishAdds(s, Comparisons, comparison, hash);
    s := Proceed(s, pid, comparison, hash);
    s := Proceed(s, pid, comparison, hash);
    assert s.processes == before.processes[pid := Process(Freeze, Finished)];
  }

  /** An opening run gets as far as creating the claim file. */
  lemma StartOpening(before: System, pid: nat, corpus: Digest, runLabel: string, hash: Bytes -> Digest) returns (s: System)
    requires Reachable(before, hash)
    requires before.files.claim.None? && pid !in before.processes
    requires before.files.state.corpus == Some(corpus) && Readable(before.files.state)
    ensures Reachable(s, hash)
    ensures s.files == before.files.(claim := Some(Unfinished), creator := Some(pid))
    ensures s.processes == before.processes[pid := Process(Run(None, runLabel, true), Claiming(corpus))]
  {
    hide Reachable, Execute, ActFreeze, ActScoring;
    hide LoadCorpus;
    s := ReachableStep(before, Start(pid, Run(None, runLabel, true)), hash);
    s := Proceed(s, pid, [], hash);
    CurrentCorpusLoads(s, hash);
    s := Proceed(s, pid, [], hash);
    s := Proceed(s, pid, [], hash);
    s := Proceed(s, pid, [], hash);
    assert s.processes == before.processes[pid := Process(Run(None, runLabel, true), Claiming(corpus))];
  }

  /** It finishes the claim, records the opening and scores. */
  lemma ClaimAndScore(before: System, pid: nat, corpus: Digest, runLabel: string, hash: Bytes -> Digest) returns (s: System)
    requires Reachable(before, hash) && Readable(before.files.state)
    requires pid in before.processes && before.processes[pid] == Process(Run(None, runLabel, true), Claiming(corpus))
    ensures Reachable(s, hash)
    ensures s.files == before.files.(claim := Some(Complete(Claim(corpus, runLabel))),
                                     state := NextOpened(before.files.state, corpus, runLabel),
                                     openings := before.files.openings + {Opening(pid, corpus, runLabel)})
    ensures s.processes == before.processes[pid := Process(Run(None, runLabel, true), Scored(corpus))]
  {
    hide Reachable, Execute, ActFreeze, LoadCorpus, RejectAfterOpening;
    s := Proceed(before, pid, [], hash);
    s := Proceed(s, pid, [], hash);
    s := Proceed(s, pid, [], hash);
    s := Proceed(s, pid, [], hash);
    assert s.processes == before.processes[pid := Process(Run(None, runLabel, true), Scored(corpus))];
  }

  /** The scoring run publishes and records its result. */
  lemma FinishRun(before: System, pid: nat, corpus: Digest, runLabel: string, result: Bytes, comparison: Bytes,
                  hash: Bytes -> Digest) returns (s: System)
    requires Reachable(before, hash) && Readable(before.files.state)
    requires pid in before.processes && before.processes[pid] == Process(Run(None, runLabel, true), Scored(corpus))
    ensures Reachable(s, hash)
    ensures s.files == before.files.(store := WithResult(before.files.store, before.files.state, result, comparison, hash),
                                     state := Recorded(before.files.state, result, comparison, hash))
  {
    hide Reachable, Execute, ActFreeze, ActOpening;
    hide Publish, Added;
    PublishAdds(before, Runs, result, hash);
    s := Proceed(before, pid, result, hash);
    s := Proceed(s, pid, result, hash);
    PublishAdds(s, Comparisons, comparison, hash);
    s := Proceed(s, pid, comparison, hash);
    s := Proceed(s, pid, comparison, hash);
  }

  /** An undisturbed opening run goes through: it leaves the finished claim, its result published, and a state document
      two updates on that names the opened corpus, the label and the result. */
  lemma UndisturbedOpening(before: System, pid: nat, corpus: Digest, runLabel: string, result: Bytes, comparison: Bytes,
                           hash: Bytes -> Digest) returns (s: System)
    requires Reachable(before, hash)
    requires before.files.claim.None? && pid !in before.processes
    requires before.files.state.corpus == Some(corpus) && Readable(before.files.state)
    ensures Reachable(s, hash)
    ensures s.files.claim == Some(Complete(Claim(corpus, runLabel)))
    ensures s.files.openings == before.files.openings + {Opening(pid, corpus, runLabel)}
    ensures s.files.store == WithResult(before.files.store, before.files.state, result, comparison, hash)
    ensures var state := before.files.state;
            s.files.state == state.(openedCorpus := Some(corpus), openedLabel := Some(runLabel), run := Some(hash(result)),
                                    previousRun := state.run, heldOutRun := Some(hash(result)),
                                    runComparison := s.files.state.runComparison, generation := state.generation + 2)
            && (state.run.Some? ==> s.files.state.runComparison == Some(hash(comparison)))
  {
    hide Reachable;
    s := StartOpening(before, pid, corpus, runLabel, hash);
    s := ClaimAndScore(s, pid, corpus, runLabel, hash);
    s := FinishRun(s, pid, corpus, runLabel, result, comparison, hash);
  }

  /** What overlap can lose. A freeze that passed its guard before the opening may still finish after it: the corpus
      then changes under the opened run, the record of the opening is overwritten, and once the run records its result
      the state document is one that every later operation refuses to read. The late write leaves the generation where
      the opening had put it. The claim file is not affected. */
  lemma LateFreezeLosesRecord(first: Bytes, second: Bytes, comparison: Bytes, result: Bytes, hash: Bytes -> Digest)
      returns (scored: System, frozen: System, s: System)
    requires hash(first) != hash(second)
    ensures Reachable(scored, hash) && Reachable(frozen, hash) && Reachable(s, hash)
    ensures scored.files.state.generation == frozen.files.state.generation == 2 && scored.files.state != frozen.files.state
    ensures s.files.openings == scored.files.openings == {Opening(2, hash(first), "score")}
    ensures s.files.claim == scored.files.claim == Some(Complete(Claim(hash(first), "score")))
    ensures scored.files.state.openedCorpus == Some(hash(first)) && frozen.files.state.openedCorpus == None
    ensures s.files.state.corpus == Some(hash(second)) && s.files.state.openedCorpus == None
    ensures !Readable(s.files.state)
  {
    s := EMPTY_SYSTEM;
    assert s == Execute(EMPTY_SYSTEM, [], hash);
    assert Reachable(s, hash);
    hide Reachable, Execute, WithCorpus, WithResult;
    s := UndisturbedFreeze(s, 0, first, comparison, hash);
    var snapshot := s.files.state;
    s := HeldFreeze(s, 1, hash);
    s := StartOpening(s, 2, hash(first), "score", hash);
    scored := ClaimAndScore(s, 2, hash(first), "score", hash);
    frozen := FinishFreeze(scored, 1, snapshot, second, comparison, hash);
    s := FinishRun(frozen, 2, hash(first), "score", result, comparison, hash);
  }
}
