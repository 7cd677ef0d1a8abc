/** Stable and candidate slots of the self-hosting harness: install, seed, check and promote.

    `hash` stands for the hexadecimal SHA-256 of a document, `delta` for the digest of the canonical pair of map
    digests (candidate, stable) and `seal` for the digest of a gate without its seal. What processes and the
    installer do is an input. */
module SelfHost {
  import opened Prelude

  /** A slot directory: begun and never finished, or published by its `slot.json`. */
  datatype Slot = Unfinished | Installed(version: string)

  datatype SlotRef = SlotRef(wheel: string, version: string)

  datatype Promotion = Promotion(gateSeal: string, rationale: string)

  datatype Stable = Stable(generation: nat, previous: Option<SlotRef>, promotion: Option<Promotion>, slot: SlotRef)

  datatype Host = Host(slots: map<string, Slot>, stable: Option<Stable>)

  /** A Map document: the producer, the discovery context and everything else. */
  datatype MapDocument = MapDocument(tool: Bytes, discovery: Bytes, evidence: Bytes)

  datatype Status = Pass | ReviewRequired | OtherStatus

  datatype Maps = Maps(candidate: string, stable: string, delta: string, equal: bool)

  datatype Bindings = Bindings(core: bool, python: bool)

  /** The digests of the configuration, the two source closures, the map input and the constraint policy. */
  datatype Source = Source(config: string, core: string, python: string, mapInput: string, policy: string)

  /** Whether discovery context and source evidence were the same before and after the tests. */
  datatype Stability = Stability(discoveryEqual: bool, sourceEqual: bool)

  /** `commands` holds the recorded exit codes by name. */
  datatype Gate = Gate(stable: SlotRef, generation: nat, candidate: SlotRef, status: Status, maps: Maps,
                       bindings: Bindings, verificationPasses: bool, commands: map<string, int>, source: Source,
                       stability: Stability)

  datatype GateFile = Unreadable | GateFile(gate: Gate, seal: string)

  /** How the environment answers a gate measurement. */
  datatype Evidence = Evidence(directoryExists: bool, source: Source,
                               stableMapExit: int, candidateBeforeExit: int, testsExit: int, candidateMapExit: int,
                               stableMap: MapDocument, candidateBefore: MapDocument, candidateMap: MapDocument,
                               verifySupported: bool, verifyExit: int, coreMatches: bool, pythonMatches: bool)

  /** How an installation ends: published, undone by its handler, or cut off. */
  datatype Installation = Succeeds | Raises | CutOff

  datatype HostError = SlotInvalid | InstallFailed | StateExists | NoState | EvidenceExists | CommandFailed
                     | SourceChanged | NoVerify | NotFromSource | GateInvalid | StableChanged | ApprovalMissing | RationaleMissing
                     | NotPromotable | EvidenceIncomplete

  // ----- map documents

  /** A map without its producer. */
  function NormalizedMap(m: MapDocument): (Bytes, Bytes) {
    (m.discovery, m.evidence)
  }

  /** A map without its producer and discovery context. */
  function SourceStabilityMap(m: MapDocument): Bytes {
    m.evidence
  }

  // ----- specification

  /** A finished slot that validates; `works` says whether its commands report the recorded version. */
  predicate ValidSlot(slots: map<string, Slot>, wheel: string, works: bool) {
    wheel in slots && slots[wheel].Installed? && works
  }

  function Install(slots: map<string, Slot>, wheel: SlotRef, result: Installation, works: bool)
    : (map<string, Slot>, Result<SlotRef, HostError>)
  {
    if wheel.wheel in slots then
      (slots, if ValidSlot(slots, wheel.wheel, works) then Ok(SlotRef(wheel.wheel, slots[wheel.wheel].version))
              else Err(SlotInvalid))
    else
      match result
      case Raises => (slots, Err(InstallFailed))
      case CutOff => (slots[wheel.wheel := Unfinished], Err(InstallFailed))
      case Succeeds =>
        (slots[wheel.wheel := Installed(wheel.version)], if works then Ok(wheel) else Err(SlotInvalid))
  }

  /** `load_state`: a state whose stable slot still validates. */
  function LoadState(host: Host, works: bool): Result<Stable, HostError> {
    if host.stable.None? then Err(NoState)
    else if !ValidSlot(host.slots, host.stable.value.slot.wheel, works) then Err(SlotInvalid)
    else Ok(host.stable.value)
  }

  function Seeded(slot: SlotRef): Stable {
    Stable(0, None, None, slot)
  }

  function Measure(stable: Stable, candidate: SlotRef, e: Evidence, hash: ((Bytes, Bytes)) -> string,
                   delta: (string, string) -> string): Result<Gate, HostError>
  {
    if e.directoryExists then Err(EvidenceExists)
    else if e.stableMapExit != 0 || e.candidateBeforeExit != 0 || e.testsExit != 0 || e.candidateMapExit != 0 then
      Err(CommandFailed)
    else if SourceStabilityMap(e.candidateBefore) != SourceStabilityMap(e.candidateMap) then Err(SourceChanged)
    else if !e.verifySupported then Err(NoVerify)
    else if e.verifyExit != 0 then Err(CommandFailed)
    else if !e.coreMatches || !e.pythonMatches then Err(NotFromSource)
    else
      var s, c := NormalizedMap(e.stableMap), NormalizedMap(e.candidateMap);
      Ok(Gate(stable.slot, stable.generation, candidate, if s == c then Pass else ReviewRequired,
              Maps(hash(c), hash(s), delta(hash(c), hash(s)), s == c),
              Bindings(e.coreMatches, e.pythonMatches), true,
              map["stable_map" := e.stableMapExit, "candidate-before-tests_map" := e.candidateBeforeExit,
                  "tests" := e.testsExit, "candidate_map" := e.candidateMapExit, "candidate_verify" := e.verifyExit],
              e.source, Stability(e.candidateBefore.discovery == e.candidateMap.discovery, true)))
  }

  /** The gate records a test command that succeeded. */
  predicate TestsPassed(gate: Gate) {
    "tests" in gate.commands && gate.commands["tests"] == 0
  }

  /** The decision to promote, given a loaded state and a gate whose seal is valid. */
  function Decide(host: Host, state: Stable, gate: Gate, approval: Option<string>, rationale: Option<string>,
                  works: bool): Result<(), HostError>
  {
    if gate.stable.wheel != state.slot.wheel then Err(StableChanged)
    else if gate.status == ReviewRequired && approval != Some(gate.maps.delta) then Err(ApprovalMissing)
    else if gate.status == ReviewRequired && (rationale.None? || rationale.value == "") then Err(RationaleMissing)
    else if gate.status == OtherStatus then Err(NotPromotable)
    else if !ValidSlot(host.slots, gate.candidate.wheel, works) then Err(SlotInvalid)
    else if !gate.verificationPasses || !gate.bindings.core || !gate.bindings.python then Err(EvidenceIncomplete)
    else if !TestsPassed(gate) then Err(EvidenceIncomplete)
    else Ok(())
  }

  function Promoted(state: Stable, file: GateFile, rationale: Option<string>): Stable
    requires file.GateFile?
  {
    Stable(state.generation + 1, Some(state.slot),
           Some(Promotion(file.seal, if rationale.Some? then rationale.value else "")), file.gate.candidate)
  }

  function PromoteSpec(host: Host, file: GateFile, approval: Option<string>, rationale: Option<string>,
                       stableWorks: bool, candidateWorks: bool, seal: Gate -> string): Result<Stable, HostError>
  {
    var state :- LoadState(host, stableWorks);
    if file.Unreadable? || file.seal != seal(file.gate) then Err(GateInvalid) else
      var _ :- Decide(host, state, file.gate, approval, rationale, candidateWorks);
      Ok(Promoted(state, file, rationale))
  }

  // ----- the program's commands

  class StateRoot {
    var slots: map<string, Slot>
    var stable: Option<Stable>

    constructor ()
      ensures Contents() == Host(map[], None)
    {
      slots, stable := map[], None;
    }

    function Contents(): Host
      reads this
    {
      Host(slots, stable)
    }

    /** Creates the slot under its final name and publishes it last; a handler removes what a failure leaves. */
    method InstallSlot(wheel: SlotRef, result: Installation, works: bool) returns (r: Result<SlotRef, HostError>)
      modifies this`slots
      ensures (slots, r) == Install(old(slots), wheel, result, works)
    {
      if wheel.wheel in slots {
        if !ValidSlot(slots, wheel.wheel, works) {
          return Err(SlotInvalid);
        }
        return Ok(SlotRef(wheel.wheel, slots[wheel.wheel].version));
      }
      slots := slots[wheel.wheel := Unfinished];
      if result.CutOff? {
        return Err(InstallFailed);
      }
      if result.Raises? {
        slots := slots - {wheel.wheel};
        assert slots == old(slots);
        return Err(InstallFailed);
      }
      slots := slots[wheel.wheel := Installed(wheel.version)];
      assert slots == old(slots)[wheel.wheel := Installed(wheel.version)];
      if !works {
        return Err(SlotInvalid);
      }
      return Ok(wheel);
    }

    /** `recorded` is false when the call is cut off before `stable.json` is replaced. */
    method Seed(wheel: SlotRef, result: Installation, works: bool, recorded: bool) returns (r: Result<SlotRef, HostError>)
      modifies this
      ensures old(stable).Some? ==> r == Err(StateExists) && Contents() == old(Contents())
      ensures old(stable).None? ==>
                && (slots, r) == Install(old(slots), wheel, result, works)
                && stable == if r.Ok? && recorded then Some(Seeded(r.value)) else None
    {
      if stable.Some? {
        return Err(StateExists);
      }
      r := InstallSlot(wheel, result, works);
      if r.Ok? && recorded {
        stable := Some(Seeded(r.value));
      }
    }

    method Check(wheel: SlotRef, result: Installation, stableWorks: bool, works: bool, e: Evidence,
                 hash: ((Bytes, Bytes)) -> string, delta: (string, string) -> string, seal: Gate -> string)
      returns (r: Result<GateFile, HostError>)
      modifies this`slots
      ensures LoadState(old(Contents()), stableWorks).Err? ==> r.Err? && slots == old(slots)
      ensures LoadState(old(Contents()), stableWorks).Ok? ==>
                var installed := Install(old(slots), wheel, result, works);
                && slots == installed.0
                && (r.Ok? <==> installed.1.Ok? && Measure(stable.value, installed.1.value, e, hash, delta).Ok?)
                && (r.Ok? ==> var gate := Measure(stable.value, installed.1.value, e, hash, delta).value;
                              r == Ok(GateFile(gate, seal(gate))))
    {
      var state := LoadState(Contents(), stableWorks);
      if state.Err? {
        return Err(state.error);
      }
      var candidate := InstallSlot(wheel, result, works);
      if candidate.Err? {
        return Err(candidate.error);
      }
      var gate := Measure(state.value, candidate.value, e, hash, delta);
      if gate.Err? {
        return Err(gate.error);
      }
      return Ok(GateFile(gate.value, seal(gate.value)));
    }

    method Promote(file: GateFile, approval: Option<string>, rationale: Option<string>, stableWorks: bool,
                   candidateWorks: bool, seal: Gate -> string) returns (r: Result<Stable, HostError>)
      modifies this`stable
      ensures r == PromoteSpec(old(Contents()), file, approval, rationale, stableWorks, candidateWorks, seal)
      ensures stable == if r.Ok? then Some(r.value) else old(stable)
    {
      var state := LoadState(Contents(), stableWorks);
      if state.Err? {
        return Err(state.error);
      }
      if file.Unreadable? || file.seal != seal(file.gate) {
        return Err(GateInvalid);
      }
      var decision := Decide(Contents(), state.value, file.gate, approval, rationale, candidateWorks);
      if decision.Err? {
        return Err(decision.error);
      }
      stable := Some(Promoted(state.value, file, rationale));
      return Ok(stable.value);
    }
  }
}
