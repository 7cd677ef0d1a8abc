/** What every call of release staging leaves in the three files, wherever it is killed. */
module StagingExact {
  import opened Prelude
  import opened ReleaseStaging
  import opened StagingLog

  /** The call gets through its first `n` writes, and is left to finish if it has no more. */
  predicate Reaches(cut: Cut, n: nat) {
    cut == Never || cut.after >= n
  }

  /** What lies in a file whose write is the one cut off. */
  function Left<T>(cut: Cut, before: T, partly: Bytes -> T): T {
    if cut.Cut? && cut.partial.Some? then partly(cut.partial.value) else before
  }

  /** Staging starts exactly when there is no record, the provenance is absent or recognised and the package can be stamped;
      otherwise it changes nothing. It writes the record of the original with both digests, then the provenance, then the
      stamped package, and a cut leaves exactly the writes before it and the given part of the next. */
  lemma StageExactly(tree: Tree, document: Bytes, commit: string, cut: Cut, stamp: Stamp, hash: Bytes -> string)
    ensures var end := Perform(tree, StagePlan(tree, document, commit, stamp, hash), cut);
            if tree.record == NoRecord && tree.provenance != Unrecognised && stamp(tree.package, commit).Some? then
              var staged := stamp(tree.package, commit).value;
              var record := Record(tree.package, hash(tree.package), hash(staged));
              end == if Reaches(cut, 3) then (Tree(staged, record, Known(document)), Completed)
                     else if Reaches(cut, 2) then (Tree(Left(cut, tree.package, b => b), record, Known(document)), Killed)
                     else if Reaches(cut, 1) then
                       (Tree(tree.package, record, Left(cut, tree.provenance, b => Unrecognised)), Killed)
                     else (Tree(tree.package, Left(cut, NoRecord, b => Torn), tree.provenance), Killed)
            else end == (tree, Refused)
  {
    var plan := StagePlan(tree, document, commit, stamp, hash);
    if plan.writes != [] {
      var staged := stamp(tree.package, commit).value;
      var record, package := WriteRecord(Record(tree.package, hash(tree.package), hash(staged))), WritePackage(staged);
      assert plan.writes == [record] + ([WriteProvenance(document)] + ([package] + []));
      PerformTwo(tree, record, [WriteProvenance(document)] + ([package] + []), false, cut);
      if !Due(cut) {
        var first := Apply(tree, record);
        PerformTwo(first, WriteProvenance(document), [package] + [], false, Later(cut));
        if !Due(Later(cut)) {
          PerformTwo(Apply(first, WriteProvenance(document)), package, [], false, Later(Later(cut)));
        }
      }
    }
  }

  /** The undisturbed case: what a completed staging leaves, and when there is one. */
  lemma StageCompletesExactlyWhen(tree: Tree, document: Bytes, commit: string, stamp: Stamp, hash: Bytes -> string)
    ensures var end := Perform(tree, StagePlan(tree, document, commit, stamp, hash), Never);
            && (end.1.Completed? <==>
                tree.record == NoRecord && tree.provenance != Unrecognised && stamp(tree.package, commit).Some?)
            && (end.1.Completed? ==>
                var staged := stamp(tree.package, commit).value;
                end.0 == Tree(staged, Record(tree.package, hash(tree.package), hash(staged)), Known(document)))
            && (!end.1.Completed? ==> end == (tree, Refused))
  {
    StageExactly(tree, document, commit, Never, stamp, hash);
    hide StagePlan, Perform;
  }

  /** A record a clean-up can work with: truthful, over the staged or the original package. */
  predicate Usable(tree: Tree, hash: Bytes -> string) {
    tree.record.Record? && hash(tree.record.original) == tree.record.originalSha
    && (hash(tree.package) == tree.record.stagedSha || hash(tree.package) == tree.record.originalSha)
  }

  /** What dropping the side files leaves: the provenance goes first, then the record. */
  function Dropped(tree: Tree, cut: Cut): (Tree, Outcome) {
    match tree.provenance
    case Unrecognised => (tree, Refused)
    case NoProvenance =>
      if Reaches(cut, 1) then (Tree(tree.package, NoRecord, NoProvenance), Completed) else (tree, Killed)
    case Known(_) =>
      if Reaches(cut, 2) then (Tree(tree.package, NoRecord, NoProvenance), Completed)
      else if Reaches(cut, 1) then (Tree(tree.package, tree.record, NoProvenance), Killed)
      else (tree, Killed)
  }

  lemma DropExactly(tree: Tree, rest: seq<Write>, refuses: bool, cut: Cut)
    requires if tree.provenance == Unrecognised then rest == [] && refuses
             else !refuses && rest == (if tree.provenance.Known? then [RemoveProvenance] else []) + [RemoveRecord]
    ensures Perform(tree, Plan(rest, refuses), cut) == Dropped(tree, cut)
  {
    if tree.provenance.Known? {
      PerformTwo(tree, RemoveProvenance, [RemoveRecord], refuses, cut);
      if !Due(cut) {
        assert [RemoveRecord] == [RemoveRecord] + [];
        PerformTwo(Apply(tree, RemoveProvenance), RemoveRecord, [], refuses, Later(cut));
      }
    } else if tree.provenance == NoProvenance {
      assert rest == [RemoveRecord] + [];
      PerformTwo(tree, RemoveRecord, [], refuses, cut);
    }
  }

  /** A clean-up with a usable record puts the original back over the staged bytes, then drops the side files; without a
      record it drops a recognised provenance; in every other case it changes nothing. */
  lemma CleanExactly(tree: Tree, cut: Cut, hash: Bytes -> string)
    ensures var end := Perform(tree, CleanPlan(tree, hash), cut);
            if Usable(tree, hash) then
              if hash(tree.package) != tree.record.stagedSha then end == Dropped(tree, cut)
              else if Reaches(cut, 1) then
                end == Dropped(tree.(package := tree.record.original), if cut == Never then Never else cut.(after := cut.after - 1))
              else end == (tree.(package := Left(cut, tree.package, b => b)), Killed)
            else if tree.record == NoRecord && tree.provenance.Known? then
              end == if Reaches(cut, 1) then (Tree(tree.package, NoRecord, NoProvenance), Completed) else (tree, Killed)
            else end == (tree, if tree == Tree(tree.package, NoRecord, NoProvenance) then Completed else Refused)
  {
    var plan := CleanPlan(tree, hash);
    if Usable(tree, hash) {
      var original, restores := tree.record.original, hash(tree.package) == tree.record.stagedSha;
      var rest := if tree.provenance == Unrecognised then [] else
                    (if tree.provenance.Known? then [RemoveProvenance] else []) + [RemoveRecord];
      assert plan.writes == (if restores then [WritePackage(original)] else []) + rest;
      if restores {
        PerformTwo(tree, WritePackage(original), rest, plan.refuses, cut);
        if !Due(cut) { DropExactly(tree.(package := original), rest, plan.refuses, Later(cut)); }
      } else {
        assert plan.writes == rest;
        DropExactly(tree, rest, plan.refuses, cut);
      }
    } else if tree.record == NoRecord && tree.provenance.Known? {
      PerformTwo(tree, RemoveProvenance, [], false, cut);
      assert [RemoveProvenance] + [] == [RemoveProvenance];
    }
  }
}
