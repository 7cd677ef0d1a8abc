/** Guarantees of the evaluation store over every interleaving of processes, crashes and failures included. */
module HeldOutSafety {
  import opened Prelude
  import opened EvaluationStore

  // ----- the invariant

  /** Stages in which a process answers for the claim file. */
  predicate HoldsClaim(p: Process) {
    p.task.Run? && p.task.open && (p.stage.Claiming? || p.stage.Unlinking? || Settled(p))
  }

  /** Stages an opening run reaches only after its claim is on disk for good. */
  predicate Settled(p: Process) {
    p.task.Run? && p.task.open && (p.stage.Claimed? || p.stage.Recording? || EvaluatesCases(p.stage))
  }

  /** Stages that an opening run cannot be in once it has scored. */
  predicate BeforeScoring(stage: Stage) {
    stage.Starting? || stage.Checked? || stage.Loaded? || stage.Guarded? || stage.Claiming? || stage.Unlinking?
    || stage.Claimed? || stage.Recording?
  }

  predicate Names(store: map<Key, Bytes>, family: Family, digest: Option<Digest>) {
    digest.Some? ==> Key(family, digest.value) in store
  }

  /** Every digest in a state document names a published directory. */
  predicate NoDangling(state: State, store: map<Key, Bytes>) {
    && Names(store, Corpora, state.corpus) && Names(store, Corpora, state.previousCorpus)
    && Names(store, Reservations, state.reservation) && Names(store, Reservations, state.previousReservation)
    && Names(store, Runs, state.run) && Names(store, Runs, state.previousRun)
    && Names(store, Corpora, state.openedCorpus) && Names(store, Runs, state.heldOutRun)
    && Names(store, Comparisons, state.corpusComparison) && Names(store, Comparisons, state.reservationComparison)
    && Names(store, Comparisons, state.runComparison)
  }

  /** Every published main document hashes to the name of its directory. */
  ghost predicate ContentAddressed(store: map<Key, Bytes>, hash: Bytes -> Digest) {
    forall k | k in store :: hash(store[k]) == k.digest
  }

  ghost predicate FilesSound(files: Files, hash: Bytes -> Digest) {
    && ContentAddressed(files.store, hash)
    && NoDangling(files.state, files.store)
    && (files.claim.None? <==> files.creator.None?)
    && forall o | o in files.openings ::
         files.creator == Some(o.pid) && files.claim == Some(Complete(Claim(o.corpus, o.runLabel)))
         && Key(Corpora, o.corpus) in files.store
  }

  ghost predicate SnapshotSound(stage: Stage, store: map<Key, Bytes>) {
    match stage
    case Holding(snapshot) => NoDangling(snapshot, store)
    case Stored(snapshot, _) => NoDangling(snapshot, store)
    case Compared(snapshot, _) => NoDangling(snapshot, store)
    case Recording(_, snapshot) => NoDangling(snapshot, store)
    case RunHolding(_, _, snapshot) => NoDangling(snapshot, store)
    case RunCompared(_, _, snapshot) => NoDangling(snapshot, store)
    case _ => true
  }

  ghost predicate CorpusSound(stage: Stage, store: map<Key, Bytes>) {
    match stage
    case Loaded(c) => Key(Corpora, c) in store
    case Guarded(c) => Key(Corpora, c) in store
    case Claiming(c) => Key(Corpora, c) in store
    case Unlinking(c) => Key(Corpora, c) in store
    case Claimed(c) => Key(Corpora, c) in store
    case Recording(c, _) => Key(Corpora, c) in store
    case Scoring(c) => Key(Corpora, c) in store
    case _ => true
  }

  ghost predicate ResultSound(p: Process, store: map<Key, Bytes>) {
    match p.stage
    case Stored(_, d) => Key(FamilyOf(p.task), d) in store
    case Compared(_, d) => Key(FamilyOf(p.task), d) in store
    case RunStored(_, d) => Key(Runs, d) in store
    case RunHolding(_, d, _) => Key(Runs, d) in store
    case RunCompared(_, d, _) => Key(Runs, d) in store
    case _ => true
  }

  predicate CorpusOf(stage: Stage, corpus: Digest) {
    match stage
    case Claimed(c) => c == corpus
    case Recording(c, _) => c == corpus
    case Scoring(c) => c == corpus
    case Scored(c) => c == corpus
    case RunStored(c, _) => c == corpus
    case RunHolding(c, _, _) => c == corpus
    case RunCompared(c, _, _) => c == corpus
    case _ => false
  }

  /** Stages only an opening run passes through. */
  predicate OpeningStage(stage: Stage) {
    stage.Guarded? || stage.Claiming? || stage.Unlinking? || stage.Claimed? || stage.Recording?
  }

  ghost predicate ClaimSound(files: Files, pid: nat, p: Process) {
    && (OpeningStage(p.stage) ==> p.task.Run? && p.task.open)
    && (HoldsClaim(p) ==> files.creator == Some(pid))
    && (Settled(p) ==> files.claim.Some? && files.claim.value.Complete?
                       && files.claim.value.claim.runLabel == p.task.runLabel && CorpusOf(p.stage, files.claim.value.claim.corpus))
    && (forall o | o in files.openings && o.pid == pid ::
          !BeforeScoring(p.stage) && p.task.Run? && p.task.open && p.task.runLabel == o.runLabel)
  }

  ghost predicate ProcessSound(files: Files, pid: nat, p: Process) {
    && SnapshotSound(p.stage, files.store) && CorpusSound(p.stage, files.store) && ResultSound(p, files.store)
    && ClaimSound(files, pid, p)
  }

  ghost predicate Inv(s: System, hash: Bytes -> Digest) {
    && FilesSound(s.files, hash)
    && (forall pid | pid in s.processes :: ProcessSound(s.files, pid, s.processes[pid]))
    && (forall o | o in s.files.openings :: o.pid in s.processes)
  }

  // ----- every step keeps it

  predicate Grows(before: map<Key, Bytes>, after: map<Key, Bytes>) {
    forall k | k in before :: k in after && after[k] == before[k]
  }

  /** The claim side of the files changes only in the hands of its creator. */
  predicate ClaimOwned(before: Files, after: Files, pid: nat) {
    && ((before.claim == after.claim && before.creator == after.creator)
        || before.creator.None? || before.creator == Some(pid))
    && (forall o | o in after.openings && o !in before.openings :: o.pid == pid)
    && before.openings <= after.openings
  }

  lemma PublishSound(files: Files, family: Family, document: Bytes, hash: Bytes -> Digest)
    requires ContentAddressed(files.store, hash)
    ensures Publish(files, family, document, hash).Some?
    ensures var stored := Publish(files, family, document, hash).value;
            && ContentAddressed(stored.store, hash) && Grows(files.store, stored.store)
            && Key(family, hash(document)) in stored.store
            && stored == files.(store := stored.store)
  {}

  lemma NoDanglingGrows(state: State, before: map<Key, Bytes>, after: map<Key, Bytes>)
    requires NoDangling(state, before) && Grows(before, after)
    ensures NoDangling(state, after)
  {}

  /** Publishing a comparison keeps every pointer good, the new one included. */
  lemma ComparisonSound(files: Files, task: Task, snapshot: State, document: Bytes, hash: Bytes -> Digest)
    requires FilesSound(files, hash) && NoDangling(snapshot, files.store)
    ensures Publish(files, Comparisons, document, hash).Some?
    ensures var stored := Publish(files, Comparisons, document, hash).value;
            && FilesSound(stored, hash) && Grows(files.store, stored.store) && stored == files.(store := stored.store)
            && NoDangling(WithComparison(task, snapshot, hash(document)), stored.store)
  {
    PublishSound(files, Comparisons, document, hash);
    var stored := Publish(files, Comparisons, document, hash).value;
    NoDanglingGrows(snapshot, files.store, stored.store);
    NoDanglingGrows(files.state, files.store, stored.store);
  }

  lemma FreezeStepSound(files: Files, pid: nat, p: Process, document: Bytes, hash: Bytes -> Digest)
    requires FilesSound(files, hash) && ProcessSound(files, pid, p)
    requires !p.task.Run? && !Ended(p.stage) && !p.stage.Starting?
    ensures var e := ActFreeze(files, p.task, p.stage, document, hash);
            && FilesSound(e.files, hash) && ProcessSound(e.files, pid, p.(stage := e.stage))
            && Grows(files.store, e.files.store) && ClaimOwned(files, e.files, pid)
  {
    match p.stage
    case Holding(snapshot) =>
      PublishSound(files, FamilyOf(p.task), document, hash);
      var stored := Publish(files, FamilyOf(p.task), document, hash).value;
      NoDanglingGrows(snapshot, files.store, stored.store);
      NoDanglingGrows(files.state, files.store, stored.store);
    case Stored(snapshot, _) => ComparisonSound(files, p.task, snapshot, document, hash);
    case _ =>
  }

  lemma CorpusLoaded(files: Files, asked: Option<Digest>, hash: Bytes -> Digest)
    ensures var corpus := LoadCorpus(files, asked, hash);
            corpus.Some? ==> Key(Corpora, corpus.value) in files.store
  {}

  lemma OpenedNoDangling(snapshot: State, corpus: Digest, runLabel: string, store: map<Key, Bytes>)
    requires NoDangling(snapshot, store) && Key(Corpora, corpus) in store
    ensures NoDangling(NextOpened(snapshot, corpus, runLabel), store)
  {}

  lemma OpeningStepSound(files: Files, pid: nat, p: Process, outcome: Outcome, hash: Bytes -> Digest)
    requires FilesSound(files, hash) && ProcessSound(files, pid, p)
    requires p.task.Run? && !Ended(p.stage) && !p.stage.Starting? && !EvaluatesCases(p.stage)
    requires outcome.Raises? ==> p.stage.Claiming?
    ensures var e := ActOpening(files, pid, p.task, p.stage, outcome, hash);
            && FilesSound(e.files, hash) && ProcessSound(e.files, pid, p.(stage := e.stage))
            && Grows(files.store, e.files.store) && ClaimOwned(files, e.files, pid)
  {
    hide ContentAddressed, NoDangling, LoadCorpus, NextOpened;
    if p.stage.Checked? { CorpusLoaded(files, p.task.corpus, hash); }
    if p.stage.Recording? { OpenedNoDangling(p.stage.snapshot, p.stage.corpus, p.task.runLabel, files.store); }
  }

  lemma ScoringStepSound(files: Files, pid: nat, p: Process, document: Bytes, hash: Bytes -> Digest)
    requires FilesSound(files, hash) && ProcessSound(files, pid, p)
    requires p.task.Run? && EvaluatesCases(p.stage)
    ensures var e := ActScoring(files, pid, p.task, p.stage, document, hash);
            && FilesSound(e.files, hash) && ProcessSound(e.files, pid, p.(stage := e.stage))
            && Grows(files.store, e.files.store) && ClaimOwned(files, e.files, pid)
  {
    hide ContentAddressed, Publish, WithComparison;
    if p.stage.Scored? {
      PublishSound(files, Runs, document, hash);
      var stored := Publish(files, Runs, document, hash).value;
      NoDanglingGrows(files.state, files.store, stored.store);
    } else if p.stage.RunHolding? {
      ComparisonSound(files, p.task, p.stage.snapshot, document, hash);
    }
  }

  lemma ProcessStepSound(files: Files, pid: nat, p: Process, outcome: Outcome, document: Bytes, hash: Bytes -> Digest)
    requires FilesSound(files, hash) && ProcessSound(files, pid, p)
    ensures var e := ActProcess(files, pid, p, outcome, document, hash);
            && FilesSound(e.files, hash) && ProcessSound(e.files, pid, p.(stage := e.stage))
            && Grows(files.store, e.files.store) && ClaimOwned(files, e.files, pid)
  {
    if Ended(p.stage) || (outcome.Raises? && !p.stage.Claiming?) || p.stage.Starting? {
    } else if !p.task.Run? {
      FreezeStepSound(files, pid, p, document, hash);
    } else if EvaluatesCases(p.stage) {
      ScoringStepSound(files, pid, p, document, hash);
    } else {
      OpeningStepSound(files, pid, p, outcome, hash);
    }
  }

  /** A process that did not act stays sound whatever another one did to the files. */
  lemma BystanderSound(before: Files, after: Files, actor: nat, pid: nat, p: Process)
    requires ProcessSound(before, pid, p) && pid != actor
    requires Grows(before.store, after.store) && ClaimOwned(before, after, actor)
    ensures ProcessSound(after, pid, p)
  {
    match p.stage
    case Holding(snapshot) => NoDanglingGrows(snapshot, before.store, after.store);
    case Stored(snapshot, _) => NoDanglingGrows(snapshot, before.store, after.store);
    case Compared(snapshot, _) => NoDanglingGrows(snapshot, before.store, after.store);
    case Recording(_, snapshot) => NoDanglingGrows(snapshot, before.store, after.store);
    case RunHolding(_, _, snapshot) => NoDanglingGrows(snapshot, before.store, after.store);
    case RunCompared(_, _, snapshot) => NoDanglingGrows(snapshot, before.store, after.store);
    case _ =>
  }

  lemma StepKeepsInv(s: System, e: Event, hash: Bytes -> Digest)
    requires Inv(s, hash)
    ensures Inv(Step(s, e, hash), hash)
    ensures Grows(s.files.store, Step(s, e, hash).files.store)
  {
    var next := Step(s, e, hash);
    if e.Act? && e.pid in s.processes {
      ProcessStepSound(s.files, e.pid, s.processes[e.pid], e.outcome, e.document, hash);
      forall pid | pid in next.processes
        ensures ProcessSound(next.files, pid, next.processes[pid])
      {
        if pid != e.pid { BystanderSound(s.files, next.files, e.pid, pid, s.processes[pid]); }
      }
    } else if e.Start? && e.pid !in s.processes {
      assert forall o | o in s.files.openings :: o.pid != e.pid;
    }
  }

  lemma {:induction false} ExecuteKeepsInv(events: seq<Event>, hash: Bytes -> Digest)
    ensures Inv(Execute(EMPTY_SYSTEM, events, hash), hash)
  {
    if events != [] {
      ExecuteKeepsInv(events[..|events| - 1], hash);
      StepKeepsInv(Execute(EMPTY_SYSTEM, events[..|events| - 1], hash), events[|events| - 1], hash);
    }
  }

  // ----- the held-out set is opened once

  /** Over any interleaving and any crashes, at most one run ever scores held-out cases; it is a run that asked to,
      and it scores the published corpus named, with its label, by the claim file. */
  lemma HeldOutOpenedOnce(events: seq<Event>, hash: Bytes -> Digest)
    ensures var s := Execute(EMPTY_SYSTEM, events, hash);
            && (forall a, b | a in s.files.openings && b in s.files.openings :: a == b)
            && (forall o | o in s.files.openings ::
                  && s.files.claim == Some(Complete(Claim(o.corpus, o.runLabel)))
                  && Key(Corpora, o.corpus) in s.files.store && hash(s.files.store[Key(Corpora, o.corpus)]) == o.corpus
                  && o.pid in s.processes && s.processes[o.pid].task.Run? && s.processes[o.pid].task.open
                  && s.processes[o.pid].task.runLabel == o.runLabel)
  {
    ExecuteKeepsInv(events, hash);
  }

  /** Whatever the claim file holds, finding it refuses a freeze, reservation or run and leaves every file alone. */
  lemma ClaimRefuses(s: System, pid: nat, document: Bytes, hash: Bytes -> Digest)
    requires pid in s.processes && s.processes[pid].stage.Starting?
    requires s.files.claim.Some?
    ensures var next := Step(s, Act(pid, Proceeds, document), hash);
            next.files == s.files && next.processes[pid].stage.Refused?
  {}

  /** The claim file exists and its creator is past removing it: it finished the claim, or was killed writing it. */
  predicate ClaimStands(s: System) {
    s.files.claim.Some? && s.files.creator.Some? && s.files.creator.value in s.processes
    && PastUnlinking(s.processes[s.files.creator.value].stage)
  }

  predicate PastUnlinking(stage: Stage) {
    !stage.Starting? && !stage.Checked? && !stage.Loaded? && !stage.Guarded? && !stage.Claiming? && !stage.Unlinking?
  }

  /** One step of a process neither touches a standing claim nor takes its creator back. */
  lemma ClaimUntouched(files: Files, pid: nat, p: Process, outcome: Outcome, document: Bytes, hash: Bytes -> Digest)
    requires ClaimSound(files, pid, p)
    requires files.claim.Some? && files.creator.Some? && (files.creator == Some(pid) ==> PastUnlinking(p.stage))
    ensures var e := ActProcess(files, pid, p, outcome, document, hash);
            && e.files.claim == files.claim && e.files.creator == files.creator
            && (files.creator == Some(pid) ==> PastUnlinking(e.stage))
  {
    hide LoadCorpus, Settled, CorpusOf;
  }

  lemma ClaimStandsStep(s: System, e: Event, hash: Bytes -> Digest)
    requires Inv(s, hash) && ClaimStands(s)
    ensures ClaimStands(Step(s, e, hash))
    ensures Step(s, e, hash).files.claim == s.files.claim
  {
    if e.Act? && e.pid in s.processes {
      assert ProcessSound(s.files, e.pid, s.processes[e.pid]);
      ClaimUntouched(s.files, e.pid, s.processes[e.pid], e.outcome, e.document, hash);
      hide ActProcess, Inv, ProcessSound, PastUnlinking;
    }
  }

  /** A process that has not passed its guard, or never will. */
  predicate ShutOut(s: System, pid: nat) {
    pid in s.processes ==>
      var stage := s.processes[pid].stage; stage.Starting? || stage.Refused? || stage.Failed? || stage.Killed?
  }

  lemma ShutOutStep(s: System, e: Event, pid: nat, hash: Bytes -> Digest)
    requires s.files.claim.Some? && ShutOut(s, pid)
    ensures ShutOut(Step(s, e, hash), pid)
  {
    hide ActFreeze, ActOpening, ActScoring;
  }

  /** Once the claim stands it stands for good, and no process that had not passed its guard by then ever gets past
      it: it freezes, reserves and scores nothing in any continuation. */
  lemma {:induction false} StandingClaimShutsOut(s: System, events: seq<Event>, pid: nat, hash: Bytes -> Digest)
    requires Inv(s, hash) && ClaimStands(s)
    requires pid !in s.processes || s.processes[pid].stage.Starting?
    ensures var end := Execute(s, events, hash);
            Inv(end, hash) && ClaimStands(end) && end.files.claim == s.files.claim && ShutOut(end, pid)
  {
    if events != [] {
      var init, last := events[..|events| - 1], events[|events| - 1];
      StandingClaimShutsOut(s, init, pid, hash);
      var before := Execute(s, init, hash);
      hide Inv, Step;
      StepKeepsInv(before, last, hash);
      ClaimStandsStep(before, last, hash);
      ShutOutStep(before, last, pid, hash);
      hide ClaimStands, ShutOut;
    }
  }

  /** Scoring implies a standing claim, so the guarantee above starts at the latest with the first held-out score. */
  lemma OpeningStands(events: seq<Event>, hash: Bytes -> Digest)
    requires Execute(EMPTY_SYSTEM, events, hash).files.openings != {}
    ensures ClaimStands(Execute(EMPTY_SYSTEM, events, hash))
  {
    ExecuteKeepsInv(events, hash);
    var s := Execute(EMPTY_SYSTEM, events, hash);
    var o :| o in s.files.openings;
    assert ProcessSound(s.files, o.pid, s.processes[o.pid]);
  }

  // ----- content-addressed pointers

  /** Over any interleaving, each digest in `state.json` names a published directory whose main document hashes to it. */
  lemma NoDanglingPointers(events: seq<Event>, hash: Bytes -> Digest)
    ensures var files := Execute(EMPTY_SYSTEM, events, hash).files;
            && NoDangling(files.state, files.store)
            && forall k | k in files.store :: hash(files.store[k]) == k.digest
  {
    ExecuteKeepsInv(events, hash);
  }

  /** What was published once stays published with the same bytes. */
  lemma {:induction false} PublishedForGood(earlier: seq<Event>, later: seq<Event>, hash: Bytes -> Digest)
    ensures Grows(Execute(EMPTY_SYSTEM, earlier, hash).files.store, Execute(EMPTY_SYSTEM, earlier + later, hash).files.store)
  {
    if later == [] {
      assert earlier + later == earlier;
    } else {
      var events := earlier + later;
      assert events[..|events| - 1] == earlier + later[..|later| - 1];
      PublishedForGood(earlier, later[..|later| - 1], hash);
      ExecuteKeepsInv(events[..|events| - 1], hash);
      StepKeepsInv(Execute(EMPTY_SYSTEM, events[..|events| - 1], hash), events[|events| - 1], hash);
    }
  }
}
