/** Every change of the stable slot is backed by a gate measured on it, over whole histories of commands. */
module PromotionHistory {
  import opened Prelude
  import opened SelfHost

  type Hash = ((Bytes, Bytes)) -> string
  type Delta = (string, string) -> string
  type Seal = Gate -> string

  datatype Command =
    | DoInstall(wheel: SlotRef, result: Installation, works: bool)
    | DoSeed(wheel: SlotRef, result: Installation, works: bool, recorded: bool)
    | DoCheck(wheel: SlotRef, result: Installation, stableWorks: bool, works: bool, evidence: Evidence)
    | DoPromote(file: GateFile, approval: Option<string>, rationale: Option<string>, stableWorks: bool,
                candidateWorks: bool)

  /** A gate together with the evidence it was computed from. */
  datatype Measured = Measured(gate: Gate, evidence: Evidence)

  /** One value of `stable.json`, and for a promotion what justified it. */
  datatype Entry = Entry(stable: Stable, backing: Option<Backing>)

  datatype Backing = Backing(gate: Gate, approval: Option<string>, rationale: Option<string>)

  /** The state root, the gates `check` has written so far, and the values `stable.json` has had. */
  datatype World = World(host: Host, gates: set<Measured>, log: seq<Entry>)

  const EMPTY := World(Host(map[], None), {}, [])

  function Next(w: World, c: Command, hash: Hash, delta: Delta, seal: Seal): World {
    match c
    case DoInstall(wheel, result, works) =>
      w.(host := w.host.(slots := Install(w.host.slots, wheel, result, works).0))
    case DoSeed(wheel, result, works, recorded) =>
      if w.host.stable.Some? then w
      else
        var (slots, r) := Install(w.host.slots, wheel, result, works);
        if r.Ok? && recorded then World(Host(slots, Some(Seeded(r.value))), w.gates, w.log + [Entry(Seeded(r.value), None)])
        else w.(host := w.host.(slots := slots))
    case DoCheck(wheel, result, stableWorks, works, evidence) =>
      if LoadState(w.host, stableWorks).Err? then w
      else
        var (slots, r) := Install(w.host.slots, wheel, result, works);
        var gates :=
          if r.Err? then {}
          else
            var gate := Measure(w.host.stable.value, r.value, evidence, hash, delta);
            if gate.Err? then {} else {Measured(gate.value, evidence)};
        World(w.host.(slots := slots), w.gates + gates, w.log)
    case DoPromote(file, approval, rationale, stableWorks, candidateWorks) =>
      var r := PromoteSpec(w.host, file, approval, rationale, stableWorks, candidateWorks, seal);
      if r.Err? || file.Unreadable? then w
      else World(w.host.(stable := Some(r.value)), w.gates,
                 w.log + [Entry(r.value, Some(Backing(file.gate, approval, rationale)))])
  }

  function History(commands: seq<Command>, hash: Hash, delta: Delta, seal: Seal): World {
    if commands == [] then EMPTY
    else Next(History(commands[..|commands| - 1], hash, delta, seal), commands[|commands| - 1], hash, delta, seal)
  }

  // ----- the invariant

  /** Two maps are the same apart from their producer. */
  predicate MapsAgree(a: MapDocument, b: MapDocument) {
    a.discovery == b.discovery && a.evidence == b.evidence
  }

  /** The gate says what the evidence shows: every required command succeeded on unchanged source built from the
      checked closure, and the status is a pass exactly when both maps agree up to their producer. */
  ghost predicate Truthful(m: Measured, hash: Hash, delta: Delta) {
    var g, e := m.gate, m.evidence;
    var stableMap, candidateMap := (e.stableMap.discovery, e.stableMap.evidence), (e.candidateMap.discovery, e.candidateMap.evidence);
    && !e.directoryExists && e.stableMapExit == 0 && e.candidateBeforeExit == 0 && e.candidateMapExit == 0
    && e.testsExit == 0 && e.verifySupported && e.verifyExit == 0 && e.coreMatches && e.pythonMatches
    && e.candidateBefore.evidence == e.candidateMap.evidence
    && (g.status == Pass <==> stableMap == candidateMap)
    && (g.status == ReviewRequired <==> stableMap != candidateMap)
    && g.maps == Maps(hash(candidateMap), hash(stableMap), delta(hash(candidateMap), hash(stableMap)),
                      stableMap == candidateMap)
    && TestsPassed(g) && g.verificationPasses && g.bindings == Bindings(true, true) && g.source == e.source
  }

  /** The gate names the stable slot of the generation it was measured at, and a candidate that was finished. */
  ghost predicate Placed(w: World, m: Measured) {
    && m.gate.generation < |w.log| && w.log[m.gate.generation].stable.slot == m.gate.stable
    && Finished(w.host.slots, m.gate.candidate.wheel)
  }

  /** What must back a change of the stable slot from `before` to `after`, whoever wrote the gate. */
  ghost predicate Justified(before: Stable, after: Stable, b: Backing, seal: Seal) {
    var g := b.gate;
    && g.stable.wheel == before.slot.wheel && g.candidate == after.slot
    && TestsPassed(g) && g.verificationPasses && g.bindings.core && g.bindings.python
    && (g.status == Pass
        || (g.status == ReviewRequired && b.approval == Some(g.maps.delta) && b.rationale.Some? && b.rationale.value != ""))
    && after.promotion == Some(Promotion(seal(g), if b.rationale.Some? then b.rationale.value else ""))
  }

  /** Entry `i` continues the chain: counted by its generation, and justified over its predecessor. */
  ghost predicate Linked(log: seq<Entry>, i: nat, seal: Seal)
    requires i < |log|
  {
    && log[i].stable.generation == i
    && (i == 0 ==> log[0].stable.previous == None && log[0].backing == None)
    && (i > 0 ==> log[i].stable.previous == Some(log[i - 1].stable.slot) && log[i].backing.Some?
                  && Justified(log[i - 1].stable, log[i].stable, log[i].backing.value, seal))
  }

  ghost predicate Chained(log: seq<Entry>, seal: Seal) {
    forall i: nat | i < |log| :: Linked(log, i, seal)
  }

  ghost predicate Inv(w: World, hash: Hash, delta: Delta, seal: Seal) {
    && (w.host.stable.None? <==> w.log == [])
    && (w.log != [] ==> w.host.stable == Some(w.log[|w.log| - 1].stable))
    && Chained(w.log, seal)
    && (forall m | m in w.gates :: Truthful(m, hash, delta) && Placed(w, m))
    && (forall i | 0 <= i < |w.log| :: Finished(w.host.slots, w.log[i].stable.slot.wheel))
  }

  predicate Finished(slots: map<string, Slot>, wheel: string) {
    wheel in slots && slots[wheel].Installed?
  }

  /** Whatever becomes of an installation, a finished slot stays as it is. */
  lemma InstallKeepsFinished(slots: map<string, Slot>, wheel: SlotRef, result: Installation, works: bool)
    ensures var (after, r) := Install(slots, wheel, result, works);
            && (forall w | Finished(slots, w) :: Finished(after, w) && after[w] == slots[w])
            && (r.Ok? ==> Finished(after, r.value.wheel) && r.value.wheel == wheel.wheel)
  {}

  /** A gate a measurement gives is truthful, and names what was measured. */
  lemma MeasureTruthful(stable: Stable, candidate: SlotRef, e: Evidence, hash: Hash, delta: Delta)
    ensures var gate := Measure(stable, candidate, e, hash, delta);
            gate.Ok? ==>
              && Truthful(Measured(gate.value, e), hash, delta)
              && gate.value.stable == stable.slot && gate.value.generation == stable.generation
              && gate.value.candidate == candidate
  {}

  /** Whatever the command, the log only grows and finished slots stay finished. */
  lemma NextGrows(w: World, c: Command, hash: Hash, delta: Delta, seal: Seal)
    ensures var after := Next(w, c, hash, delta, seal);
            && w.log <= after.log && w.gates <= after.gates
            && forall wheel | Finished(w.host.slots, wheel) :: Finished(after.host.slots, wheel)
  {
    hide Measure, PromoteSpec;
    if !c.DoPromote? { InstallKeepsFinished(w.host.slots, c.wheel, c.result, c.works); }
  }

  lemma NextKeepsChain(w: World, c: Command, hash: Hash, delta: Delta, seal: Seal)
    requires Inv(w, hash, delta, seal)
    ensures var after := Next(w, c, hash, delta, seal);
            && (after.host.stable.None? <==> after.log == [])
            && (after.log != [] ==> after.host.stable == Some(after.log[|after.log| - 1].stable))
            && Chained(after.log, seal)
            && forall i | 0 <= i < |after.log| :: Finished(after.host.slots, after.log[i].stable.slot.wheel)
  {
    hide Truthful, Placed, Measure;
    var after := Next(w, c, hash, delta, seal);
    NextGrows(w, c, hash, delta, seal);
    forall i: nat | i < |after.log|
      ensures Linked(after.log, i, seal)
    {
      if i < |w.log| { assert Linked(w.log, i, seal); }
      if 0 < |w.log| { assert Linked(w.log, |w.log| - 1, seal); }
    }
    if !c.DoPromote? { InstallKeepsFinished(w.host.slots, c.wheel, c.result, c.works); }
  }

  lemma NextKeepsGates(w: World, c: Command, hash: Hash, delta: Delta, seal: Seal)
    requires Inv(w, hash, delta, seal)
    ensures var after := Next(w, c, hash, delta, seal);
            forall m | m in after.gates :: Truthful(m, hash, delta) && Placed(after, m)
  {
    hide Truthful, Measure, PromoteSpec;
    var after := Next(w, c, hash, delta, seal);
    NextGrows(w, c, hash, delta, seal);
    if 0 < |w.log| { assert Linked(w.log, |w.log| - 1, seal); }
    if c.DoCheck? {
      InstallKeepsFinished(w.host.slots, c.wheel, c.result, c.works);
      var r := Install(w.host.slots, c.wheel, c.result, c.works).1;
      if w.host.stable.Some? && r.Ok? { MeasureTruthful(w.host.stable.value, r.value, c.evidence, hash, delta); }
    }
    forall m | m in after.gates
      ensures Truthful(m, hash, delta) && Placed(after, m)
    {
      if m in w.gates { assert Placed(w, m); }
    }
  }

  lemma NextKeepsInv(w: World, c: Command, hash: Hash, delta: Delta, seal: Seal)
    requires Inv(w, hash, delta, seal)
    ensures Inv(Next(w, c, hash, delta, seal), hash, delta, seal)
  {
    NextKeepsChain(w, c, hash, delta, seal);
    NextKeepsGates(w, c, hash, delta, seal);
    hide Next, Truthful, Placed, Chained;
  }

  lemma {:induction false} HistoryKeepsInv(commands: seq<Command>, hash: Hash, delta: Delta, seal: Seal)
    ensures Inv(History(commands, hash, delta, seal), hash, delta, seal)
  {
    if commands != [] {
      HistoryKeepsInv(commands[..|commands| - 1], hash, delta, seal);
      NextKeepsInv(History(commands[..|commands| - 1], hash, delta, seal), commands[|commands| - 1], hash, delta, seal);
    }
  }

  /** Over all sequences of seeds, checks, installations (cut off anywhere) and promotions: the values of `stable.json`
      count up from generation 0, each naming its predecessor's slot as previous and backed by a gate for exactly that
      change with passing tests, verification and bindings and either a pass or an approval of its exact delta with a
      rationale; a gate that `check` wrote is truthful about what was measured, names the stable slot of the generation
      it was measured at, and its candidate is finished; and the stable slot is finished. */
  lemma PromotionsJustified(commands: seq<Command>, hash: Hash, delta: Delta, seal: Seal)
    ensures var w := History(commands, hash, delta, seal);
            && Chained(w.log, seal)
            && (forall m | m in w.gates :: Truthful(m, hash, delta) && Placed(w, m))
            && (w.host.stable.Some? ==>
                w.log != [] && w.log[|w.log| - 1].stable == w.host.stable.value
                && Finished(w.host.slots, w.host.stable.value.slot.wheel))
  {
    HistoryKeepsInv(commands, hash, delta, seal);
  }

  /** Every promotion is given a gate that `check` had written by then. */
  ghost predicate GatesFromCheck(commands: seq<Command>, hash: Hash, delta: Delta, seal: Seal) {
    forall n | 0 <= n < |commands| && commands[n].DoPromote? && commands[n].file.GateFile? ::
      exists m | m in History(commands[..n], hash, delta, seal).gates :: m.gate == commands[n].file.gate
  }

  /** Entry `i` was promoted with a gate `check` measured, at an earlier generation of the slot it replaced, on maps
      that agreed or whose exact delta was approved with a rationale. */
  ghost predicate BackedBy(w: World, i: nat, m: Measured, hash: Hash, delta: Delta)
    requires 0 < i < |w.log| && w.log[i].backing.Some?
  {
    var before, after, b, e := w.log[i - 1].stable, w.log[i].stable, w.log[i].backing.value, m.evidence;
    var stableMap, candidateMap := (e.stableMap.discovery, e.stableMap.evidence), (e.candidateMap.discovery, e.candidateMap.evidence);
    && m in w.gates && b.gate == m.gate && Truthful(m, hash, delta)
    && m.gate.generation < i && w.log[m.gate.generation].stable.slot == m.gate.stable
    && m.gate.stable.wheel == before.slot.wheel && m.gate.candidate == after.slot
    && (stableMap == candidateMap
        || (b.approval == Some(delta(hash(candidateMap), hash(stableMap))) && b.rationale.Some? && b.rationale.value != ""))
  }

  ghost predicate Backed(w: World, i: nat, hash: Hash, delta: Delta)
    requires 0 < i < |w.log|
  {
    w.log[i].backing.Some? && exists m :: BackedBy(w, i, m, hash, delta)
  }

  ghost predicate AllBacked(w: World, hash: Hash, delta: Delta) {
    forall i: nat | 0 < i < |w.log| :: Backed(w, i, hash, delta)
  }

  /** When promotions are given gates from `check`, every change of the stable slot, over all histories, is backed by a
      measurement of the slot it replaced against the slot it installed: every command succeeded on unchanged source
      built from the checked closure, and the maps agreed or their exact delta was approved with a rationale. */
  lemma {:induction false} PromotionsMeasured(commands: seq<Command>, hash: Hash, delta: Delta, seal: Seal)
    requires GatesFromCheck(commands, hash, delta, seal)
    ensures AllBacked(History(commands, hash, delta, seal), hash, delta)
  {
    if commands != [] {
      var n := |commands| - 1;
      var init, last := commands[..n], commands[n];
      var before, after := History(init, hash, delta, seal), History(commands, hash, delta, seal);
      EarlierFromCheck(commands, hash, delta, seal);
      PromotionsMeasured(init, hash, delta, seal);
      HistoryKeepsInv(init, hash, delta, seal);
      assert after == Next(before, last, hash, delta, seal);
      assert AllBacked(before, hash, delta);
      hide History, Backed, Truthful;
      NextKeepsInv(before, last, hash, delta, seal);
      NextGrows(before, last, hash, delta, seal);
      forall i: nat | 0 < i < |after.log|
        ensures Backed(after, i, hash, delta)
      {
        assert Linked(after.log, i, seal);
        if i < |before.log| {
          BackingStays(before, after, i, hash, delta);
        } else {
          NewestBacked(before, last, i, hash, delta, seal);
        }
      }
    }
  }

  lemma EarlierFromCheck(commands: seq<Command>, hash: Hash, delta: Delta, seal: Seal)
    requires commands != [] && GatesFromCheck(commands, hash, delta, seal)
    ensures GatesFromCheck(commands[..|commands| - 1], hash, delta, seal)
    ensures var n := |commands| - 1;
            commands[n].DoPromote? && commands[n].file.GateFile? ==>
              exists m | m in History(commands[..n], hash, delta, seal).gates :: m.gate == commands[n].file.gate
  {
    hide History;
    var init := commands[..|commands| - 1];
    forall n | 0 <= n < |init| && init[n].DoPromote? && init[n].file.GateFile?
      ensures exists m | m in History(init[..n], hash, delta, seal).gates :: m.gate == init[n].file.gate
    {
      assert init[..n] == commands[..n] && init[n] == commands[n];
    }
  }

  lemma BackingStays(before: World, after: World, i: nat, hash: Hash, delta: Delta)
    requires 0 < i < |before.log| && Backed(before, i, hash, delta)
    requires before.log <= after.log && before.gates <= after.gates
    ensures Backed(after, i, hash, delta)
  {
    hide Truthful;
    var m :| BackedBy(before, i, m, hash, delta);
    assert BackedBy(after, i, m, hash, delta);
  }

  lemma NewestBacked(before: World, c: Command, i: nat, hash: Hash, delta: Delta, seal: Seal)
    requires Inv(before, hash, delta, seal)
    requires c.DoPromote? && c.file.GateFile? ==> exists m | m in before.gates :: m.gate == c.file.gate
    requires 0 < i == |before.log| < |Next(before, c, hash, delta, seal).log|
    ensures Backed(Next(before, c, hash, delta, seal), i, hash, delta)
  {
    var after := Next(before, c, hash, delta, seal);
    assert c.DoPromote? && c.file.GateFile?;
    var m :| m in before.gates && m.gate == c.file.gate;
    assert Truthful(m, hash, delta) && Placed(before, m);
    assert BackedBy(after, i, m, hash, delta);
  }

  /** Conversely, a gate `check` measured at any time promotes its candidate, while the slots involved still work,
      exactly when the wheel it was measured on is the stable one now and the maps agreed or its delta is approved with
      a rationale. */
  lemma MeasuredGatePromotes(host: Host, measuredOn: Stable, candidate: SlotRef, e: Evidence, approval: Option<string>,
                             rationale: Option<string>, hash: Hash, delta: Delta, seal: Seal)
    requires LoadState(host, true).Ok? && Finished(host.slots, candidate.wheel)
    requires Measure(measuredOn, candidate, e, hash, delta).Ok?
    ensures var gate := Measure(measuredOn, candidate, e, hash, delta).value;
            var r := PromoteSpec(host, GateFile(gate, seal(gate)), approval, rationale, true, true, seal);
            && (r.Ok? <==> measuredOn.slot.wheel == host.stable.value.slot.wheel
                           && (MapsAgree(e.stableMap, e.candidateMap)
                               || (approval == Some(gate.maps.delta) && rationale.Some? && rationale.value != "")))
            && (r.Ok? ==> r.value.slot == candidate && r.value.previous == Some(host.stable.value.slot)
                          && r.value.generation == host.stable.value.generation + 1)
  {}

  // ----- what a gate records and what it is not bound to

  /** Refused alike, or installing the same slot under the same generation and rationale. */
  predicate PromotesAlike(a: Result<Stable, HostError>, b: Result<Stable, HostError>) {
    if a.Err? then a == b
    else b.Ok? && a.value.promotion.Some? && b.value.promotion.Some?
         && b.value == a.value.(promotion := b.value.promotion)
         && a.value.promotion.value.rationale == b.value.promotion.value.rationale
  }

  /** What the tests did to discovery context or producer is recorded and decides nothing: of two measurements that
      differ only there, both are refused alike, or their gates promote alike from every state and with every approval. */
  lemma ContextDriftDecidesNothing(stable: Stable, candidate: SlotRef, e: Evidence, before: MapDocument, host: Host,
                                   approval: Option<string>, rationale: Option<string>, stableWorks: bool,
                                   candidateWorks: bool, hash: Hash, delta: Delta, seal: Seal)
    requires before.evidence == e.candidateBefore.evidence
    ensures var a := Measure(stable, candidate, e, hash, delta);
            var b := Measure(stable, candidate, e.(candidateBefore := before), hash, delta);
            if a.Err? then a == b
            else
              && b.Ok? && b.value == a.value.(stability := Stability(before.discovery == e.candidateMap.discovery, true))
              && PromotesAlike(PromoteSpec(host, GateFile(a.value, seal(a.value)), approval, rationale, stableWorks,
                                           candidateWorks, seal),
                               PromoteSpec(host, GateFile(b.value, seal(b.value)), approval, rationale, stableWorks,
                                           candidateWorks, seal))
  {
    var a := Measure(stable, candidate, e, hash, delta);
    var b := Measure(stable, candidate, e.(candidateBefore := before), hash, delta);
    if a.Ok? {
      var stability := Stability(before.discovery == e.candidateMap.discovery, true);
      assert b == Ok(a.value.(stability := stability));
      hide Measure;
      RecordDecidesNothing(host, a.value, stability, approval, rationale, stableWorks, candidateWorks, seal);
    }
  }

  lemma RecordDecidesNothing(host: Host, gate: Gate, stability: Stability, approval: Option<string>,
                             rationale: Option<string>, stableWorks: bool, candidateWorks: bool, seal: Seal)
    ensures var other := gate.(stability := stability);
            PromotesAlike(PromoteSpec(host, GateFile(gate, seal(gate)), approval, rationale, stableWorks, candidateWorks, seal),
                          PromoteSpec(host, GateFile(other, seal(other)), approval, rationale, stableWorks, candidateWorks, seal))
  {}

  lemma HistoryStep(commands: seq<Command>, c: Command, hash: Hash, delta: Delta, seal: Seal)
    ensures History(commands + [c], hash, delta, seal) == Next(History(commands, hash, delta, seal), c, hash, delta, seal)
  {
    hide Next;
    assert (commands + [c])[..|commands|] == commands;
  }

  /** One check and the promotion by its gate, from a stable slot to a candidate whose map agrees with it. */
  lemma Advance(w: World, candidate: SlotRef, e: Evidence, hash: Hash, delta: Delta, seal: Seal) returns (gate: Gate, next: World)
    requires w.host.stable.Some? && Finished(w.host.slots, w.host.stable.value.slot.wheel)
    requires candidate.wheel !in w.host.slots || w.host.slots[candidate.wheel] == Installed(candidate.version)
    requires Measure(w.host.stable.value, candidate, e, hash, delta).Ok?
    requires MapsAgree(e.stableMap, e.candidateMap)
    ensures Measure(w.host.stable.value, candidate, e, hash, delta) == Ok(gate)
    ensures var checked := Next(w, DoCheck(candidate, Succeeds, true, true, e), hash, delta, seal);
            next == Next(checked, DoPromote(GateFile(gate, seal(gate)), None, None, true, true), hash, delta, seal)
    ensures next.host.slots == w.host.slots[candidate.wheel := Installed(candidate.version)]
    ensures next.host.stable == Some(Promoted(w.host.stable.value, GateFile(gate, seal(gate)), None))
    ensures next.log == w.log + [Entry(next.host.stable.value, Some(Backing(gate, None, None)))]
  {
    gate := Measure(w.host.stable.value, candidate, e, hash, delta).value;
    var checked := Next(w, DoCheck(candidate, Succeeds, true, true, e), hash, delta, seal);
    next := Next(checked, DoPromote(GateFile(gate, seal(gate)), None, None, true, true), hash, delta, seal);
    assert next.host.slots == w.host.slots[candidate.wheel := Installed(candidate.version)];
  }

  /** A gate is bound to the stable wheel and not to its generation. After going from one slot to another and back, the
      gate of the first change promotes a second time, two generations after the one it was measured at. */
  lemma StaleGatePromotesAgain(a: SlotRef, b: SlotRef, e: Evidence, hash: Hash, delta: Delta, seal: Seal)
      returns (commands: seq<Command>)
    requires a.wheel != b.wheel && Measure(Seeded(a), b, e, hash, delta).Ok?
    requires MapsAgree(e.stableMap, e.candidateMap)
    ensures var log := History(commands, hash, delta, seal).log;
            && |log| == 4 && log[3].stable.generation == 3
            && log[2].stable.slot == a && log[3].stable.slot == b
            && log[3].backing == log[1].backing && log[3].backing.Some? && log[3].backing.value.gate.generation == 0
  {
    var seed := DoSeed(a, Succeeds, true, true);
    commands := [seed];
    assert [] + [seed] == commands;
    HistoryStep([], seed, hash, delta, seal);
    hide History;
    var w := History(commands, hash, delta, seal);
    assert w == World(Host(map[a.wheel := Installed(a.version)], Some(Seeded(a))), {}, [Entry(Seeded(a), None)]);
    hide Next;
    var first, second: Gate;
    first, commands, w := AdvanceHistory(commands, b, e, hash, delta, seal);
    second, commands, w := AdvanceHistory(commands, a, e, hash, delta, seal);
    var again := DoPromote(GateFile(first, seal(first)), None, None, true, true);
    HistoryStep(commands, again, hash, delta, seal);
    PromoteAgain(w, first, hash, delta, seal);
    commands := commands + [again];
  }

  lemma AdvanceHistory(commands: seq<Command>, candidate: SlotRef, e: Evidence, hash: Hash, delta: Delta, seal: Seal)
      returns (gate: Gate, longer: seq<Command>, next: World)
    requires var w := History(commands, hash, delta, seal);
             && w.host.stable.Some? && Finished(w.host.slots, w.host.stable.value.slot.wheel)
             && (candidate.wheel !in w.host.slots || w.host.slots[candidate.wheel] == Installed(candidate.version))
             && Measure(w.host.stable.value, candidate, e, hash, delta).Ok?
    requires MapsAgree(e.stableMap, e.candidateMap)
    ensures next == History(longer, hash, delta, seal)
    ensures var w := History(commands, hash, delta, seal);
            && Measure(w.host.stable.value, candidate, e, hash, delta) == Ok(gate)
            && next.host.slots == w.host.slots[candidate.wheel := Installed(candidate.version)]
            && next.host.stable == Some(Promoted(w.host.stable.value, GateFile(gate, seal(gate)), None))
            && next.log == w.log + [Entry(next.host.stable.value, Some(Backing(gate, None, None)))]
  {
    hide History, Next, Measure;
    gate, next := Advance(History(commands, hash, delta, seal), candidate, e, hash, delta, seal);
    var check, promote := DoCheck(candidate, Succeeds, true, true, e), DoPromote(GateFile(gate, seal(gate)), None, None, true, true);
    longer := commands + [check] + [promote];
    HistoryStep(commands, check, hash, delta, seal);
    HistoryStep(commands + [check], promote, hash, delta, seal);
  }

  lemma PromoteAgain(w: World, gate: Gate, hash: Hash, delta: Delta, seal: Seal)
    requires w.host.stable.Some? && Finished(w.host.slots, w.host.stable.value.slot.wheel)
    requires gate.stable.wheel == w.host.stable.value.slot.wheel && Finished(w.host.slots, gate.candidate.wheel)
    requires gate.status == Pass && gate.verificationPasses && gate.bindings == Bindings(true, true) && TestsPassed(gate)
    ensures var next := Next(w, DoPromote(GateFile(gate, seal(gate)), None, None, true, true), hash, delta, seal);
            next.log == w.log + [Entry(Promoted(w.host.stable.value, GateFile(gate, seal(gate)), None),
                                       Some(Backing(gate, None, None)))]
  {}

  lemma UnfinishedStays(w: World, c: Command, wheel: string, hash: Hash, delta: Delta, seal: Seal)
    requires wheel in w.host.slots && w.host.slots[wheel] == Unfinished
    ensures var slots := Next(w, c, hash, delta, seal).host.slots; wheel in slots && slots[wheel] == Unfinished
  {
    hide Measure, PromoteSpec;
  }

  lemma UnfinishedUnused(w: World, wheel: string, hash: Hash, delta: Delta, seal: Seal)
    requires Inv(w, hash, delta, seal) && wheel in w.host.slots && w.host.slots[wheel] == Unfinished
    ensures forall i | 0 <= i < |w.log| :: w.log[i].stable.slot.wheel != wheel
    ensures forall m | m in w.gates :: m.gate.candidate.wheel != wheel
  {
    hide Truthful, Chained;
  }

  /** An installation cut off midway blocks its wheel for good: in every continuation its slot stays unfinished, it is
      never stable, and no gate is ever measured with it as the candidate. */
  lemma {:induction false} CutOffBlocksWheel(earlier: seq<Command>, later: seq<Command>, wheel: string, hash: Hash,
                                             delta: Delta, seal: Seal)
    requires var slots := History(earlier, hash, delta, seal).host.slots; wheel in slots && slots[wheel] == Unfinished
    ensures var w := History(earlier + later, hash, delta, seal);
            && wheel in w.host.slots && w.host.slots[wheel] == Unfinished
            && (forall i | 0 <= i < |w.log| :: w.log[i].stable.slot.wheel != wheel)
            && forall m | m in w.gates :: m.gate.candidate.wheel != wheel
  {
    if later == [] {
      assert earlier + later == earlier;
    } else {
      var n := |later| - 1;
      assert (earlier + later[..n]) + [later[n]] == earlier + later;
      HistoryStep(earlier + later[..n], later[n], hash, delta, seal);
      hide *;
      CutOffBlocksWheel(earlier, later[..n], wheel, hash, delta, seal);
      UnfinishedStays(History(earlier + later[..n], hash, delta, seal), later[n], wheel, hash, delta, seal);
    }
    hide *;
    HistoryKeepsInv(earlier + later, hash, delta, seal);
    UnfinishedUnused(History(earlier + later, hash, delta, seal), wheel, hash, delta, seal);
  }
}
