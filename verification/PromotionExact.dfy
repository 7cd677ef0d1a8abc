/** Exactly which gates `check` writes, which promotions are made, and what installing a wheel leaves. */
module PromotionExact {
  import opened Prelude
  import opened SelfHost
  import opened PromotionHistory

  /** A measurement gives a gate exactly when its evidence is new, all commands succeed, the tests leave the source evidence
      alone and both bindings match the checked source; the gate holds the slots, the status the two maps decide with
      their digests, every exit code, the digests of the source and what became of the discovery context. */
  lemma MeasureExactly(stable: Stable, candidate: SlotRef, e: Evidence, hash: Hash, delta: Delta)
    ensures var r := Measure(stable, candidate, e, hash, delta);
            && (r.Ok? <==>
                && !e.directoryExists && e.verifySupported && e.coreMatches && e.pythonMatches
                && e.stableMapExit == e.candidateBeforeExit == e.testsExit == e.candidateMapExit == e.verifyExit == 0
                && e.candidateBefore.evidence == e.candidateMap.evidence)
            && (r.Ok? ==>
                && r.value.stable == stable.slot && r.value.generation == stable.generation && r.value.candidate == candidate
                && r.value.status == (if MapsAgree(e.stableMap, e.candidateMap) then Pass else ReviewRequired)
                && r.value.maps.equal == MapsAgree(e.stableMap, e.candidateMap)
                && r.value.maps.stable == hash((e.stableMap.discovery, e.stableMap.evidence))
                && r.value.maps.candidate == hash((e.candidateMap.discovery, e.candidateMap.evidence))
                && r.value.maps.delta == delta(r.value.maps.candidate, r.value.maps.stable)
                && r.value.bindings.core && r.value.bindings.python && r.value.verificationPasses
                && r.value.commands.Keys
                   == {"stable_map", "candidate-before-tests_map", "tests", "candidate_map", "candidate_verify"}
                && (forall name | name in r.value.commands :: r.value.commands[name] == 0)
                && r.value.source == e.source && r.value.stability.sourceEqual
                && (r.value.stability.discoveryEqual <==> e.candidateBefore.discovery == e.candidateMap.discovery))
  {}

  predicate Works(host: Host, wheel: string, works: bool) {
    wheel in host.slots && host.slots[wheel].Installed? && works
  }

  /** Whoever wrote the gate, it is promoted exactly when the stable and the candidate slot work, its seal fits, it is bound
      to the stable wheel, it passed or its exact delta is approved with a rationale, and verification, both bindings and
      the tests succeeded. The next state counts one generation and names the slot it replaces. */
  lemma PromoteExactly(host: Host, file: GateFile, approval: Option<string>, rationale: Option<string>, stableWorks: bool,
                       candidateWorks: bool, seal: Seal)
    ensures var r := PromoteSpec(host, file, approval, rationale, stableWorks, candidateWorks, seal);
            && (r.Ok? <==>
                && host.stable.Some? && Works(host, host.stable.value.slot.wheel, stableWorks)
                && file.GateFile? && file.seal == seal(file.gate)
                && file.gate.stable.wheel == host.stable.value.slot.wheel
                && (file.gate.status == Pass
                    || (file.gate.status == ReviewRequired && approval == Some(file.gate.maps.delta)
                        && rationale.Some? && rationale.value != ""))
                && Works(host, file.gate.candidate.wheel, candidateWorks)
                && file.gate.verificationPasses && file.gate.bindings.core && file.gate.bindings.python
                && "tests" in file.gate.commands && file.gate.commands["tests"] == 0)
            && (r.Ok? ==>
                && r.value.slot == file.gate.candidate && r.value.previous == Some(host.stable.value.slot)
                && r.value.generation == host.stable.value.generation + 1
                && r.value.promotion == Some(Promotion(file.seal, if rationale.Some? then rationale.value else "")))
  {}

  /** An installation that raises can be tried again as if it had not been made; one that succeeds can be repeated and then
      answers with the version it installed, and changes nothing, whatever wheel file it is given under that digest. */
  lemma InstallTwice(slots: map<string, Slot>, wheel: SlotRef, first: Installation, second: Installation, again: SlotRef)
    requires wheel.wheel !in slots && again.wheel == wheel.wheel
    ensures var (once, r) := Install(slots, wheel, first, true);
            var (twice, q) := Install(once, again, second, true);
            && (first.Raises? ==> r.Err? && once == slots && (twice, q) == Install(slots, again, second, true))
            && (first.Succeeds? ==> r == q == Ok(wheel) && twice == once == slots[wheel.wheel := Installed(wheel.version)])
            && (first.CutOff? ==> r.Err? && q.Err? && twice == once == slots[wheel.wheel := Unfinished])
  {}

  /** The first seed that installs and records its slot makes it the stable one of generation 0, with no predecessor and no
      promotion; while there is a stable slot a seed changes nothing. */
  lemma SeedExactly(w: World, wheel: SlotRef, recorded: bool, hash: Hash, delta: Delta, seal: Seal)
    ensures var after := Next(w, DoSeed(wheel, Succeeds, true, recorded), hash, delta, seal);
            && (w.host.stable.Some? ==> after == w)
            && (w.host.stable.None? && wheel.wheel !in w.host.slots ==>
                && after.host.slots == w.host.slots[wheel.wheel := Installed(wheel.version)]
                && after.host.stable == if recorded then Some(Stable(0, None, None, wheel)) else None)
  {}
}
