/** Staging keeps the original package recoverable through every run, kill and outside edit. */
module StagingLog {
  import opened Prelude
  import opened ReleaseStaging

  datatype Call = Stage(document: Bytes, commit: string, cut: Cut) | Clean(cut: Cut) | Edit(package: Bytes)

  /** The files and, as a history variable, the package bytes that must not be lost. */
  datatype World = World(tree: Tree, original: Bytes)

  predicate Recorded(tree: Tree, original: Bytes) {
    tree.record.Record? && tree.record.original == original
  }

  predicate Recoverable(w: World) {
    w.tree.package == w.original || Recorded(w.tree, w.original)
  }

  /** An outside edit is the new original unless a staging record still holds the old one. */
  function Next(w: World, call: Call, stamp: Stamp, hash: Bytes -> string): World {
    match call
    case Stage(document, commit, cut) =>
      w.(tree := Perform(w.tree, StagePlan(w.tree, document, commit, stamp, hash), cut).0)
    case Clean(cut) => w.(tree := Perform(w.tree, CleanPlan(w.tree, hash), cut).0)
    case Edit(package) =>
      World(w.tree.(package := package), if Recorded(w.tree, w.original) then w.original else package)
  }

  function History(start: World, calls: seq<Call>, stamp: Stamp, hash: Bytes -> string): World {
    if calls == [] then start
    else Next(History(start, calls[..|calls| - 1], stamp, hash), calls[|calls| - 1], stamp, hash)
  }

  /** No staging under way and the package as it should be. */
  predicate Fresh(w: World) {
    w.tree.record == NoRecord && w.tree.package == w.original
  }

  /** The package as staging leaves it for some commit. */
  ghost predicate IsStamped(original: Bytes, package: Bytes, stamp: Stamp) {
    exists commit :: stamp(original, commit) == Some(package)
  }

  /** A record, when there is one, holds the original, its digest, and the digest of a stamped original. */
  ghost predicate Sound(w: World, stamp: Stamp, hash: Bytes -> string) {
    && Recoverable(w)
    && (w.tree.record.Record? ==>
        && w.tree.record.original == w.original && w.tree.record.originalSha == hash(w.original)
        && exists staged :: IsStamped(w.original, staged, stamp) && w.tree.record.stagedSha == hash(staged))
  }

  lemma PerformTwo(tree: Tree, a: Write, rest: seq<Write>, refuses: bool, cut: Cut)
    ensures Perform(tree, Plan([a] + rest, refuses), cut) ==
            if Due(cut) then (if cut.partial.Some? then ApplyPartly(tree, a, cut.partial.value) else tree, Killed)
            else Perform(Apply(tree, a), Plan(rest, refuses), Later(cut))
  {
    assert ([a] + rest)[1..] == rest;
  }

  lemma StageSound(w: World, document: Bytes, commit: string, cut: Cut, stamp: Stamp, hash: Bytes -> string)
    requires Sound(w, stamp, hash)
    ensures Sound(Next(w, Stage(document, commit, cut), stamp, hash), stamp, hash)
  {
    var plan := StagePlan(w.tree, document, commit, stamp, hash);
    if plan.writes != [] {
      var entry, staged := plan.writes[0], plan.writes[2];
      assert IsStamped(w.tree.package, stamp(w.tree.package, commit).value, stamp);
      assert plan.writes == [entry] + ([WriteProvenance(document)] + ([staged] + []));
      PerformTwo(w.tree, entry, [WriteProvenance(document)] + ([staged] + []), false, cut);
      if !Due(cut) {
        var first := Apply(w.tree, entry);
        PerformTwo(first, WriteProvenance(document), [staged] + [], false, Later(cut));
        if !Due(Later(cut)) {
          PerformTwo(Apply(first, WriteProvenance(document)), staged, [], false, Later(Later(cut)));
        }
      }
    }
  }

  /** The writes of a clean-up that finds a usable record, in order. */
  lemma CleanSteps(tree: Tree, cut: Cut, hash: Bytes -> string)
    requires tree.record.Record? && CleanPlan(tree, hash) != Plan([], true)
    ensures var original := tree.record.original;
            var restores := hash(tree.package) == tree.record.stagedSha;
            var restored := if restores then tree.(package := original) else tree;
            var end := Perform(tree, CleanPlan(tree, hash), cut);
            && (restores || hash(tree.package) == tree.record.originalSha)
            && hash(original) == tree.record.originalSha
            && (end.1.Completed? ==> end.0 == Tree(restored.package, NoRecord, NoProvenance))
            && (end.1.Refused? ==> end.0 == restored && tree.provenance == Unrecognised)
            && (end.1.Killed? ==> end.0.record == tree.record)
            && (cut == Never ==> !end.1.Killed?)
  {
    var original := tree.record.original;
    var restores := hash(tree.package) == tree.record.stagedSha;
    var restored := if restores then tree.(package := original) else tree;
    var plan := CleanPlan(tree, hash);
    var rest := if tree.provenance == Unrecognised then [] else
                  (if tree.provenance.Known? then [RemoveProvenance] else []) + [RemoveRecord];
    assert plan.writes == (if restores then [WritePackage(original)] else []) + rest;
    if restores {
      PerformTwo(tree, WritePackage(original), rest, plan.refuses, cut);
      if !Due(cut) { DropSteps(restored, rest, plan.refuses, Later(cut)); }
    } else {
      assert plan.writes == rest;
      DropSteps(tree, rest, plan.refuses, cut);
    }
  }

  lemma DropSteps(tree: Tree, rest: seq<Write>, refuses: bool, cut: Cut)
    requires if tree.provenance == Unrecognised then rest == [] && refuses
             else !refuses && rest == (if tree.provenance.Known? then [RemoveProvenance] else []) + [RemoveRecord]
    ensures var end := Perform(tree, Plan(rest, refuses), cut);
            && (end.1.Completed? ==> end.0 == Tree(tree.package, NoRecord, NoProvenance))
            && (end.1.Refused? ==> end.0 == tree && tree.provenance == Unrecognised)
            && (end.1.Killed? ==> end.0.record == tree.record && end.0.package == tree.package)
            && (cut == Never ==> !end.1.Killed?)
  {
    if tree.provenance.Known? {
      PerformTwo(tree, RemoveProvenance, [RemoveRecord], refuses, cut);
      if !Due(cut) { PerformTwo(Apply(tree, RemoveProvenance), RemoveRecord, [], refuses, Later(cut)); }
    } else if tree.provenance == NoProvenance {
      assert rest == [RemoveRecord] + [];
      PerformTwo(tree, RemoveRecord, [], refuses, cut);
    }
  }

  /** The package digest is not shared with other bytes that happen to lie there. */
  ghost predicate NoCollision(w: World, hash: Bytes -> string) {
    hash(w.tree.package) == hash(w.original) ==> w.tree.package == w.original
  }

  /** A clean-up that loses the record has put the original back, or found it in place. */
  lemma CleanSound(w: World, cut: Cut, stamp: Stamp, hash: Bytes -> string)
    requires Sound(w, stamp, hash) && NoCollision(w, hash)
    ensures var end := Perform(w.tree, CleanPlan(w.tree, hash), cut).0;
            Sound(w.(tree := end), stamp, hash)
  {
    if w.tree.record.Record? && CleanPlan(w.tree, hash) != Plan([], true) {
      CleanSteps(w.tree, cut, hash);
    } else if w.tree.record == NoRecord && w.tree.provenance.Known? {
      PerformTwo(w.tree, RemoveProvenance, [], false, cut);
      assert [RemoveProvenance] + [] == [RemoveProvenance];
    }
  }

  ghost predicate CollisionFree(hash: Bytes -> string) {
    forall a, b :: hash(a) == hash(b) ==> a == b
  }

  lemma {:induction false} HistorySound(start: World, calls: seq<Call>, stamp: Stamp, hash: Bytes -> string)
    requires Fresh(start) && CollisionFree(hash)
    ensures Sound(History(start, calls, stamp, hash), stamp, hash)
  {
    if calls != [] {
      var w, last := History(start, calls[..|calls| - 1], stamp, hash), calls[|calls| - 1];
      HistorySound(start, calls[..|calls| - 1], stamp, hash);
      match last
      case Stage(document, commit, cut) => StageSound(w, document, commit, cut, stamp, hash);
      case Clean(cut) => CleanSound(w, cut, stamp, hash);
      case Edit(_) =>
    }
  }

  /** Nothing is ever lost: after any calls, each killed anywhere, even in mid-write, and any outside edits, either
      the package file holds the original bytes or the record does. */
  lemma OriginalNeverLost(start: World, calls: seq<Call>, stamp: Stamp, hash: Bytes -> string)
    requires Fresh(start) && CollisionFree(hash)
    ensures Recoverable(History(start, calls, stamp, hash))
  {
    HistorySound(start, calls, stamp, hash);
  }

  /** A clean-up that completes while a record exists restores the exact original bytes and removes both side files. */
  lemma CompletedCleanRestores(start: World, calls: seq<Call>, cut: Cut, stamp: Stamp, hash: Bytes -> string)
    requires Fresh(start) && CollisionFree(hash)
    requires var w := History(start, calls, stamp, hash);
             w.tree.record != NoRecord && Perform(w.tree, CleanPlan(w.tree, hash), cut).1.Completed?
    ensures var w := History(start, calls, stamp, hash);
            Perform(w.tree, CleanPlan(w.tree, hash), cut).0 == Tree(w.original, NoRecord, NoProvenance)
  {
    HistorySound(start, calls, stamp, hash);
    CleanSteps(History(start, calls, stamp, hash).tree, cut, hash);
  }

  /** A staging record exists, and the package is neither the original nor a stamped original: someone edited it, or a
      write to it was cut short. */
  ghost predicate Edited(w: World, stamp: Stamp) {
    w.tree.record != NoRecord && w.tree.package != w.original && !IsStamped(w.original, w.tree.package, stamp)
  }

  lemma EditedIsRefused(w: World, cut: Cut, stamp: Stamp, hash: Bytes -> string)
    requires Sound(w, stamp, hash) && CollisionFree(hash) && Edited(w, stamp)
    ensures Perform(w.tree, CleanPlan(w.tree, hash), cut) == (w.tree, Refused)
  {
    if w.tree.record.Record? {
      var staged :| IsStamped(w.original, staged, stamp) && w.tree.record.stagedSha == hash(staged);
      assert hash(w.tree.package) != hash(w.original) && hash(w.tree.package) != hash(staged);
    }
  }

  /** After any history, an edited package is left alone for good: while the record exists, no number of clean-ups and
      stagings, wherever each is killed, changes any of the three files. */
  lemma {:induction false} EditedPackageIsLeftAlone(start: World, calls: seq<Call>, more: seq<Call>, stamp: Stamp,
                                                    hash: Bytes -> string)
    requires Fresh(start) && CollisionFree(hash)
    requires Edited(History(start, calls, stamp, hash), stamp) && forall c | c in more :: !c.Edit?
    ensures History(start, calls + more, stamp, hash) == History(start, calls, stamp, hash)
  {
    if more == [] {
      assert calls + more == calls;
    } else {
      var n := |more| - 1;
      var w := History(start, calls, stamp, hash);
      assert more[n] in more && forall c | c in more[..n] :: c in more;
      assert (calls + more)[..|calls + more| - 1] == calls + more[..n];
      EditedPackageIsLeftAlone(start, calls, more[..n], stamp, hash);
      HistorySound(start, calls, stamp, hash);
      hide Sound, Edited, CleanPlan;
      match more[n]
      case Stage(document, commit, cut) => assert w.tree.record != NoRecord by { EditedHasRecord(w, stamp); }
      case Clean(cut) => EditedIsRefused(w, cut, stamp, hash);
    }
  }

  lemma EditedHasRecord(w: World, stamp: Stamp)
    requires Edited(w, stamp)
    ensures w.tree.record != NoRecord
  {}

  /** While a record of any kind exists no second staging starts. */
  lemma NoStagingOverRecord(tree: Tree, document: Bytes, commit: string, cut: Cut, stamp: Stamp, hash: Bytes -> string)
    requires tree.record != NoRecord
    ensures Perform(tree, StagePlan(tree, document, commit, stamp, hash), cut) == (tree, Refused)
  {}

  // ----- when a clean-up gets through

  /** A clean-up that is left to finish completes exactly when the record is absent or readable and truthful, the
      package is the staged or the original one, and the provenance file is recognised. */
  lemma CleanCompletesExactlyWhen(tree: Tree, hash: Bytes -> string)
    ensures Perform(tree, CleanPlan(tree, hash), Never).1.Completed? <==>
              && tree.provenance != Unrecognised
              && (tree.record == NoRecord
                  || (tree.record.Record? && hash(tree.record.original) == tree.record.originalSha
                      && (hash(tree.package) == tree.record.stagedSha || hash(tree.package) == tree.record.originalSha)))
  {
    if tree.record.Record? && CleanPlan(tree, hash) != Plan([], true) {
      CleanSteps(tree, Never, hash);
    } else if tree.record == NoRecord && tree.provenance.Known? {
      PerformTwo(tree, RemoveProvenance, [], false, Never);
      assert [RemoveProvenance] + [] == [RemoveProvenance];
    }
  }

  /** Kills fall between whole writes and nobody edits the package. */
  predicate WholeWrites(call: Call) {
    match call
    case Stage(_, _, cut) => cut.Cut? ==> cut.partial.None?
    case Clean(cut) => cut.Cut? ==> cut.partial.None?
    case Edit(_) => false
  }

  /** The three files as whole writes can leave them. */
  ghost predicate Clearable(w: World, stamp: Stamp, hash: Bytes -> string) {
    && Sound(w, stamp, hash) && w.tree.provenance != Unrecognised
    && (w.tree.record == NoRecord
        || (w.tree.record.Record?
            && (w.tree.package == w.original || hash(w.tree.package) == w.tree.record.stagedSha)))
  }

  lemma StageClearable(w: World, document: Bytes, commit: string, cut: Cut, stamp: Stamp, hash: Bytes -> string)
    requires Clearable(w, stamp, hash) && (cut.Cut? ==> cut.partial.None?)
    ensures Clearable(Next(w, Stage(document, commit, cut), stamp, hash), stamp, hash)
  {
    StageSound(w, document, commit, cut, stamp, hash);
    var plan := StagePlan(w.tree, document, commit, stamp, hash);
    if plan.writes != [] {
      var entry, staged := plan.writes[0], plan.writes[2];
      assert IsStamped(w.tree.package, stamp(w.tree.package, commit).value, stamp);
      assert plan.writes == [entry] + ([WriteProvenance(document)] + ([staged] + []));
      PerformTwo(w.tree, entry, [WriteProvenance(document)] + ([staged] + []), false, cut);
      if !Due(cut) {
        var first := Apply(w.tree, entry);
        PerformTwo(first, WriteProvenance(document), [staged] + [], false, Later(cut));
        if !Due(Later(cut)) {
          PerformTwo(Apply(first, WriteProvenance(document)), staged, [], false, Later(Later(cut)));
        }
      }
    }
  }

  lemma CleanClearable(w: World, cut: Cut, stamp: Stamp, hash: Bytes -> string)
    requires Clearable(w, stamp, hash) && CollisionFree(hash) && (cut.Cut? ==> cut.partial.None?)
    ensures Clearable(Next(w, Clean(cut), stamp, hash), stamp, hash)
  {
    CleanSound(w, cut, stamp, hash);
    if w.tree.record.Record? {
      var original, restores := w.tree.record.original, hash(w.tree.package) == w.tree.record.stagedSha;
      var rest := (if w.tree.provenance.Known? then [RemoveProvenance] else []) + [RemoveRecord];
      assert CleanPlan(w.tree, hash).writes == (if restores then [WritePackage(original)] else []) + rest;
      if restores {
        PerformTwo(w.tree, WritePackage(original), rest, false, cut);
        if !Due(cut) { DropClearable(w.tree.(package := original), rest, Later(cut)); }
      } else {
        assert CleanPlan(w.tree, hash).writes == rest;
        DropClearable(w.tree, rest, cut);
      }
    } else if w.tree.provenance.Known? {
      PerformTwo(w.tree, RemoveProvenance, [], false, cut);
      assert [RemoveProvenance] + [] == [RemoveProvenance];
    }
  }

  lemma DropClearable(tree: Tree, rest: seq<Write>, cut: Cut)
    requires tree.provenance != Unrecognised
    requires rest == (if tree.provenance.Known? then [RemoveProvenance] else []) + [RemoveRecord]
    ensures var end := Perform(tree, Plan(rest, false), cut).0;
            && end.package == tree.package && end.provenance != Unrecognised
            && (end.record == tree.record || end.record == NoRecord)
  {
    if tree.provenance.Known? {
      PerformTwo(tree, RemoveProvenance, [RemoveRecord], false, cut);
      if !Due(cut) { PerformTwo(Apply(tree, RemoveProvenance), RemoveRecord, [], false, Later(cut)); }
    } else {
      assert rest == [RemoveRecord] + [];
      PerformTwo(tree, RemoveRecord, [], false, cut);
    }
  }

  lemma {:induction false} HistoryClearable(start: World, calls: seq<Call>, stamp: Stamp, hash: Bytes -> string)
    requires Fresh(start) && CollisionFree(hash) && start.tree.provenance != Unrecognised
    requires forall c | c in calls :: WholeWrites(c)
    ensures Clearable(History(start, calls, stamp, hash), stamp, hash)
  {
    if calls != [] {
      var w, last := History(start, calls[..|calls| - 1], stamp, hash), calls[|calls| - 1];
      HistoryClearable(start, calls[..|calls| - 1], stamp, hash);
      assert WholeWrites(last);
      match last
      case Stage(document, commit, cut) => StageClearable(w, document, commit, cut, stamp, hash);
      case Clean(cut) => CleanClearable(w, cut, stamp, hash);
    }
  }

  /** When kills fall between writes and nobody else touches the package, one clean-up left to finish always gets
      back to the original package with no side files. */
  lemma CleanAlwaysRecovers(start: World, calls: seq<Call>, stamp: Stamp, hash: Bytes -> string)
    requires Fresh(start) && CollisionFree(hash) && start.tree.provenance != Unrecognised
    requires forall c | c in calls :: WholeWrites(c)
    ensures var w := History(start, calls, stamp, hash);
            Perform(w.tree, CleanPlan(w.tree, hash), Never) == (Tree(w.original, NoRecord, NoProvenance), Completed)
  {
    HistoryClearable(start, calls, stamp, hash);
    var w := History(start, calls, stamp, hash);
    CleanCompletesExactlyWhen(w.tree, hash);
    if w.tree.record != NoRecord {
      CompletedCleanRestores(start, calls, Never, stamp, hash);
    } else if w.tree.provenance.Known? {
      PerformTwo(w.tree, RemoveProvenance, [], false, Never);
      assert [RemoveProvenance] + [] == [RemoveProvenance];
    }
  }
}
