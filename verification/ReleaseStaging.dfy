/** Release staging of the Node package as a write-ahead log over three files.

    A call may be killed after any number of its writes, in the middle of the next one too. `hash` stands for the
    hexadecimal SHA-256; `stamp` for parsing a package document and adding `gitHead` to it, which fails on a document
    that cannot be read or already has one. */
module ReleaseStaging {
  import opened Prelude

  /** The staging record. `Torn` is an interrupted write; `Foreign` a readable file that is no staging record. */
  datatype RecordFile = NoRecord | Torn | Foreign | Record(original: Bytes, originalSha: string, stagedSha: string)

  /** The provenance file; `Unrecognised` covers interrupted writes and files of another kind. */
  datatype ProvenanceFile = NoProvenance | Known(document: Bytes) | Unrecognised

  datatype Tree = Tree(package: Bytes, record: RecordFile, provenance: ProvenanceFile)

  datatype Write =
    | WriteRecord(record: RecordFile)
    | WriteProvenance(document: Bytes)
    | WritePackage(package: Bytes)
    | RemoveProvenance
    | RemoveRecord

  /** When a call is killed: after `after` completed writes, possibly leaving `partial` bytes of the next one. */
  datatype Cut = Never | Cut(after: nat, partial: Option<Bytes>)

  datatype Outcome = Completed | Refused | Killed

  /** What a call is going to do to the files, and whether it then raises. */
  datatype Plan = Plan(writes: seq<Write>, refuses: bool)

  type Stamp = (Bytes, string) -> Option<Bytes>

  // ----- specification

  function Apply(tree: Tree, w: Write): Tree {
    match w
    case WriteRecord(r) => tree.(record := r)
    case WriteProvenance(d) => tree.(provenance := Known(d))
    case WritePackage(b) => tree.(package := b)
    case RemoveProvenance => tree.(provenance := NoProvenance)
    case RemoveRecord => tree.(record := NoRecord)
  }

  /** An interrupted write; removals are atomic. */
  function ApplyPartly(tree: Tree, w: Write, partial: Bytes): Tree {
    match w
    case WriteRecord(_) => tree.(record := Torn)
    case WriteProvenance(_) => tree.(provenance := Unrecognised)
    case WritePackage(_) => tree.(package := partial)
    case _ => tree
  }

  /** The next write is the one that is not completed. */
  predicate Due(cut: Cut) {
    cut.Cut? && cut.after == 0
  }

  function Later(cut: Cut): Cut
    requires !Due(cut)
  {
    if cut == Never then Never else cut.(after := cut.after - 1)
  }

  function Perform(tree: Tree, plan: Plan, cut: Cut): (Tree, Outcome)
    decreases |plan.writes|
  {
    if plan.writes == [] then (tree, if plan.refuses then Refused else Completed)
    else if !Due(cut) then Perform(Apply(tree, plan.writes[0]), plan.(writes := plan.writes[1..]), Later(cut))
    else (if cut.partial.Some? then ApplyPartly(tree, plan.writes[0], cut.partial.value) else tree, Killed)
  }

  function StagePlan(tree: Tree, document: Bytes, commit: string, stamp: Stamp, hash: Bytes -> string): Plan {
    if tree.record != NoRecord || tree.provenance == Unrecognised then Plan([], true) else
      match stamp(tree.package, commit)
      case None => Plan([], true)
      case Some(staged) =>
        Plan([WriteRecord(Record(tree.package, hash(tree.package), hash(staged))), WriteProvenance(document),
              WritePackage(staged)], false)
  }

  function CleanPlan(tree: Tree, hash: Bytes -> string): Plan {
    var drop := if tree.provenance.Known? then [RemoveProvenance] else [];
    var blocked := tree.provenance == Unrecognised;
    match tree.record
    case NoRecord => Plan(drop, blocked)
    case Torn => Plan([], true)
    case Foreign => Plan([], true)
    case Record(original, originalSha, stagedSha) =>
      var current := hash(tree.package);
      if hash(original) != originalSha || (current != stagedSha && current != originalSha) then Plan([], true)
      else
        var restore := if current == stagedSha then [WritePackage(original)] else [];
        if blocked then Plan(restore, true) else Plan(restore + drop + [RemoveRecord], false)
  }

  // ----- the program's calls

  class Release {
    var package: Bytes
    var record: RecordFile
    var provenance: ProvenanceFile

    constructor (tree: Tree)
      ensures Files() == tree
    {
      package, record, provenance := tree.package, tree.record, tree.provenance;
    }

    function Files(): Tree
      reads this
    {
      Tree(package, record, provenance)
    }

    /** Records the original, then writes the provenance, then the stamped package. */
    method StageNode(document: Bytes, commit: string, stamp: Stamp, hash: Bytes -> string, cut: Cut)
      returns (outcome: Outcome)
      modifies this
      ensures (Files(), outcome) == Perform(old(Files()), StagePlan(old(Files()), document, commit, stamp, hash), cut)
    {
      if record != NoRecord {
        return Refused;
      }
      if provenance == Unrecognised {
        return Refused;
      }
      var original := package;
      var staged := stamp(original, commit);
      if staged.None? {
        return Refused;
      }
      var entry := Record(original, hash(original), hash(staged.value));
      ghost var plan := StagePlan(old(Files()), document, commit, stamp, hash);
      if Due(cut) {
        if cut.partial.Some? { record := Torn; }
        return Killed;
      }
      record := entry;
      var left := Later(cut);
      assert plan.writes[1..] == [WriteProvenance(document), WritePackage(staged.value)];
      assert Perform(old(Files()), plan, cut) == Perform(Files(), plan.(writes := plan.writes[1..]), left);
      if Due(left) {
        if left.partial.Some? { provenance := Unrecognised; }
        return Killed;
      }
      provenance := Known(document);
      left := Later(left);
      assert plan.writes[1..][1..] == [WritePackage(staged.value)];
      assert Perform(old(Files()), plan, cut) == Perform(Files(), plan.(writes := [WritePackage(staged.value)]), left);
      if Due(left) {
        if left.partial.Some? { package := left.partial.value; }
        return Killed;
      }
      package := staged.value;
      assert [WritePackage(staged.value)][1..] == [];
      assert Perform(Files(), Plan([], false), Later(left)) == (Files(), Completed);
      return Completed;
    }

    /** Puts the original back if the staged bytes are still there, then drops provenance and record. */
    method CleanNode(hash: Bytes -> string, cut: Cut) returns (outcome: Outcome)
      modifies this
      ensures (Files(), outcome) == Perform(old(Files()), CleanPlan(old(Files()), hash), cut)
    {
      var left := cut;
      if record == NoRecord {
        outcome := DropProvenance(left);
        return;
      }
      if !record.Record? || hash(record.original) != record.originalSha {
        return Refused;
      }
      var current := hash(package);
      ghost var plan := CleanPlan(old(Files()), hash);
      if current == record.stagedSha {
        if Due(left) {
          if left.partial.Some? { package := left.partial.value; }
          return Killed;
        }
        package := record.original;
        left := Later(left);
      } else if current != record.originalSha {
        return Refused;
      }
      ghost var rest := if old(provenance).Known? then [RemoveProvenance, RemoveRecord] else [RemoveRecord];
      assert old(provenance) != Unrecognised ==>
          plan.writes == (if current == record.stagedSha then [WritePackage(record.original)] else []) + rest;
      assert old(provenance) != Unrecognised ==>
          Perform(old(Files()), plan, cut) == Perform(Files(), Plan(rest, false), left);
      if provenance != NoProvenance {
        if provenance == Unrecognised {
          return Refused;
        }
        if Due(left) {
          return Killed;
        }
        provenance := NoProvenance;
        left := Later(left);
        assert rest[1..] == [RemoveRecord];
      }
      assert Perform(old(Files()), plan, cut) == Perform(Files(), Plan([RemoveRecord], false), left);
      assert [RemoveRecord][1..] == [];
      if Due(left) {
        return Killed;
      }
      record := NoRecord;
      return Completed;
    }

    /** Without a record only the provenance is left to remove. */
    method DropProvenance(cut: Cut) returns (outcome: Outcome)
      modifies this
      ensures package == old(package) && record == old(record)
      ensures (Files(), outcome)
              == Perform(old(Files()), Plan(if old(provenance).Known? then [RemoveProvenance] else [],
                                            old(provenance) == Unrecognised), cut)
    {
      if provenance == NoProvenance {
        return Completed;
      }
      if provenance == Unrecognised {
        return Refused;
      }
      if Due(cut) {
        return Killed;
      }
      provenance := NoProvenance;
      return Completed;
    }
  }
}
