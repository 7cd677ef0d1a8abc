/** What a reservation, an ordinary run and a failed opening leave in the evaluation root when nothing else interferes. */
module UndisturbedOperations {
  import opened Prelude
  import opened EvaluationStore
  import opened HeldOutSafety
  import opened StateGenerations

  /** A reservation left alone publishes its document, makes it the current reservation, keeps the one before with the
      comparison to it when they differ, and counts one update; corpus, runs and opening stay as they are. */
  lemma UndisturbedReservation(before: System, pid: nat, document: Bytes, comparison: Bytes, hash: Bytes -> Digest)
    returns (s: System)
    requires Reachable(before, hash) && pid !in before.processes
    requires before.files.claim.None? && Readable(before.files.state)
    ensures Reachable(s, hash) && s.processes == before.processes[pid := Process(Reserve, Finished)]
    ensures var state := before.files.state;
            var differs := state.reservation.Some? && state.reservation != Some(hash(document));
            && s.files == before.files.(store := s.files.store, state := s.files.state)
            && s.files.state == state.(reservation := Some(hash(document)), previousReservation := state.reservation,
                                       reservationComparison := if differs then Some(hash(comparison))
                                                                else state.reservationComparison,
                                       generation := state.generation + 1)
            && s.files.store == (var filled := Added(before.files.store, Reservations, document, hash);
                                 if differs then Added(filled, Comparisons, comparison, hash) else filled)
  {
    hide Reachable, Execute, ActOpening, ActScoring, LoadCorpus;
    s := ReachableStep(before, Start(pid, Reserve), hash);
    s := Proceed(s, pid, [], hash);
    s := Proceed(s, pid, [], hash);
    assert s == System(before.files, before.processes[pid := Process(Reserve, Holding(before.files.state))]);
    s := FinishReservation(before, s, pid, document, comparison, hash);
  }

  lemma FinishReservation(before: System, held: System, pid: nat, document: Bytes, comparison: Bytes, hash: Bytes -> Digest)
    returns (s: System)
    requires Reachable(held, hash)
    requires held == System(before.files, before.processes[pid := Process(Reserve, Holding(before.files.state))])
    ensures Reachable(s, hash) && s.processes == before.processes[pid := Process(Reserve, Finished)]
    ensures var state := before.files.state;
            var differs := state.reservation.Some? && state.reservation != Some(hash(document));
            && s.files == before.files.(store := s.files.store, state := s.files.state)
            && s.files.state == state.(reservation := Some(hash(document)), previousReservation := state.reservation,
                                       reservationComparison := if differs then Some(hash(comparison))
                                                                else state.reservationComparison,
                                       generation := state.generation + 1)
            && s.files.store == (var filled := Added(before.files.store, Reservations, document, hash);
                                 if differs then Added(filled, Comparisons, comparison, hash) else filled)
  {
    hide Reachable, Execute, ActOpening, ActScoring;
    hide Publish, Added;
    PublishAdds(held, Reservations, document, hash);
    s := Proceed(held, pid, document, hash);
    PublishAdds(s, Comparisons, comparison, hash);
    s := Proceed(s, pid, comparison, hash);
    s := Proceed(s, pid, comparison, hash);
    assert s.processes == before.processes[pid := Process(Reserve, Finished)];
  }

  /** The corpus a run is to work on: the one named, or the current one. */
  predicate RunsOn(files: Files, asked: Option<Digest>, corpus: Digest) {
    if asked.Some? then asked == Some(corpus) else Readable(files.state) && files.state.corpus == Some(corpus)
  }

  /** In a reachable store a run loads the corpus it is to work on exactly when that is published. */
  lemma LoadsExactly(s: System, asked: Option<Digest>, corpus: Digest, hash: Bytes -> Digest)
    requires Reachable(s, hash)
    ensures LoadCorpus(s.files, asked, hash) == Some(corpus) <==>
            RunsOn(s.files, asked, corpus) && Key(Corpora, corpus) in s.files.store
  {
    var events: seq<Event> :| s == Execute(EMPTY_SYSTEM, events, hash);
    ExecuteKeepsInv(events, hash);
  }

  /** A run past its guard that may go on with its corpus. */
  lemma LoadedRun(before: System, pid: nat, task: Task, corpus: Digest, hash: Bytes -> Digest) returns (s: System)
    requires Reachable(before, hash) && pid !in before.processes && task.Run?
    requires before.files.claim.None? && RunsOn(before.files, task.corpus, corpus) && Key(Corpora, corpus) in before.files.store
    ensures Reachable(s, hash)
    ensures s == System(before.files, before.processes[pid := Process(task, Loaded(corpus))])
  {
    hide Reachable, Execute, ActFreeze, ActScoring, LoadCorpus;
    s := ReachableStep(before, Start(pid, task), hash);
    s := Proceed(s, pid, [], hash);
    LoadsExactly(s, task.corpus, corpus, hash);
    s := Proceed(s, pid, [], hash);
    assert s.processes == before.processes[pid := Process(task, Loaded(corpus))];
  }

  /** An ordinary run left alone publishes its result on the corpus named, or the current one, records it with the comparison
      to the run before, marks it as no opening and counts one update; it opens and claims nothing. */
  lemma UndisturbedRun(before: System, pid: nat, asked: Option<Digest>, runLabel: string, corpus: Digest, result: Bytes,
                       comparison: Bytes, hash: Bytes -> Digest) returns (s: System)
    requires Reachable(before, hash) && pid !in before.processes
    requires before.files.claim.None? && Readable(before.files.state)
    requires RunsOn(before.files, asked, corpus) && Key(Corpora, corpus) in before.files.store
    ensures Reachable(s, hash) && s.processes == before.processes[pid := Process(Run(asked, runLabel, false), Finished)]
    ensures var state := before.files.state;
            && s.files == before.files.(store := WithResult(before.files.store, state, result, comparison, hash),
                                        state := s.files.state)
            && s.files.state == state.(run := Some(hash(result)), previousRun := state.run, heldOutRun := None,
                                       runComparison := if state.run.Some? then Some(hash(comparison)) else state.runComparison,
                                       generation := state.generation + 1)
  {
    hide Reachable, Execute, ActFreeze, LoadCorpus, RunsOn;
    var task := Run(asked, runLabel, false);
    s := LoadedRun(before, pid, task, corpus, hash);
    s := Proceed(s, pid, [], hash);
    s := Proceed(s, pid, [], hash);
    assert s == System(before.files, before.processes[pid := Process(task, Scored(corpus))]);
    s := FinishOrdinary(before, s, pid, task, corpus, result, comparison, hash);
  }

  lemma FinishOrdinary(before: System, scored: System, pid: nat, task: Task, corpus: Digest, result: Bytes, comparison: Bytes,
                       hash: Bytes -> Digest) returns (s: System)
    requires Reachable(scored, hash) && task.Run? && !task.open && Readable(before.files.state)
    requires scored == System(before.files, before.processes[pid := Process(task, Scored(corpus))])
    ensures Reachable(s, hash) && s.processes == before.processes[pid := Process(task, Finished)]
    ensures var state := before.files.state;
            && s.files == before.files.(store := WithResult(before.files.store, state, result, comparison, hash),
                                        state := s.files.state)
            && s.files.state == state.(run := Some(hash(result)), previousRun := state.run, heldOutRun := None,
                                       runComparison := if state.run.Some? then Some(hash(comparison)) else state.runComparison,
                                       generation := state.generation + 1)
  {
    hide Reachable, Execute, ActFreeze, ActOpening;
    hide Publish, Added;
    PublishAdds(scored, Runs, result, hash);
    s := Proceed(scored, pid, result, hash);
    s := Proceed(s, pid, result, hash);
    var files := before.files.(store := Added(before.files.store, Runs, result, hash));
    assert s == System(files, before.processes[pid := Process(task, RunHolding(corpus, hash(result), before.files.state))]);
    s := RecordOrdinary(before, s, pid, task, corpus, hash(result), comparison, hash);
  }

  lemma RecordOrdinary(before: System, held: System, pid: nat, task: Task, corpus: Digest, digest: Digest, comparison: Bytes,
                       hash: Bytes -> Digest) returns (s: System)
    requires Reachable(held, hash) && task.Run? && !task.open
    requires held.processes == before.processes[pid := Process(task, RunHolding(corpus, digest, before.files.state))]
    ensures Reachable(s, hash) && s.processes == before.processes[pid := Process(task, Finished)]
    ensures var state := before.files.state;
            && s.files == held.files.(store := if state.run.Some? then Added(held.files.store, Comparisons, comparison, hash)
                                               else held.files.store,
                                      state := s.files.state)
            && s.files.state == state.(run := Some(digest), previousRun := state.run, heldOutRun := None,
                                       runComparison := if state.run.Some? then Some(hash(comparison)) else state.runComparison,
                                       generation := state.generation + 1)
  {
    hide Reachable, Execute, ActFreeze, ActOpening;
    hide Publish, Added;
    PublishAdds(held, Comparisons, comparison, hash);
    s := Proceed(held, pid, comparison, hash);
    s := Proceed(s, pid, comparison, hash);
    assert s.processes == before.processes[pid := Process(task, Finished)];
  }

  /** Held-out cases are opened on the current corpus only: an opening run that names any other published corpus fails
      before it claims anything, and leaves every file as it was. */
  lemma OpeningNeedsCurrentCorpus(before: System, pid: nat, corpus: Digest, runLabel: string, hash: Bytes -> Digest)
    returns (s: System)
    requires Reachable(before, hash) && pid !in before.processes && before.files.claim.None?
    requires Key(Corpora, corpus) in before.files.store && before.files.state.corpus != Some(corpus)
    ensures Reachable(s, hash)
    ensures s == System(before.files, before.processes[pid := Process(Run(Some(corpus), runLabel, true), Failed)])
  {
    hide Reachable, Execute, ActFreeze, ActScoring, LoadCorpus;
    var task := Run(Some(corpus), runLabel, true);
    s := LoadedRun(before, pid, task, corpus, hash);
    s := Proceed(s, pid, [], hash);
    assert s.processes == before.processes[pid := Process(task, Failed)];
  }

  /** A claim whose writing raises is taken back: the process fails, and the store is open for another opening. */
  lemma FailedClaimIsRemoved(before: System, pid: nat, corpus: Digest, hash: Bytes -> Digest) returns (s: System)
    requires Reachable(before, hash) && pid in before.processes
    requires before.processes[pid].task.Run? && before.processes[pid].stage == Claiming(corpus)
    ensures Reachable(s, hash)
    ensures s.files == before.files.(claim := None, creator := None)
    ensures s.processes == before.processes[pid := before.processes[pid].(stage := Failed)]
  {
    hide Reachable, Execute, ActFreeze, ActScoring, LoadCorpus;
    s := ReachableStep(before, Act(pid, Raises, []), hash);
    s := Proceed(s, pid, [], hash);
    assert s.processes == before.processes[pid := before.processes[pid].(stage := Failed)];
  }
}
