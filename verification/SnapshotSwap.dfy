/** The live snapshot is always whole or absent, foreign directories are left alone, and a rerun converges. */
module SnapshotSwap {
  import opened Prelude
  import opened SnapshotSync

  /** Paths are listed once, over repository files and generated files together. */
  ghost predicate DistinctPaths(t: Target) {
    var items := t.files + t.generated;
    forall i, j | 0 <= i < j < |items| :: items[i].path != items[j].path
  }

  function Filled(d: Directory, items: seq<Item>): Directory
    decreases |items|
  {
    if items == [] then d
    else Filled(d.(entries := d.entries[items[0].path := Regular(items[0].data)]), items[1..])
  }

  /** The directory a run builds. */
  function Built(t: Target, hash: Bytes -> string): Directory {
    Filled(EMPTY_DIRECTORY, t.files + t.generated).(manifest := Some(Expected(t, hash)))
  }

  // ----- what is built is current

  lemma {:induction false} FilledEntries(d: Directory, items: seq<Item>, i: nat)
    requires forall i, j | 0 <= i < j < |items| :: items[i].path != items[j].path
    ensures i < |items| ==> items[i].path in Filled(d, items).entries
                            && Filled(d, items).entries[items[i].path] == Regular(items[i].data)
    ensures forall p | p in d.entries && (forall j | 0 <= j < |items| :: items[j].path != p) ::
              p in Filled(d, items).entries && Filled(d, items).entries[p] == d.entries[p]
    decreases |items|
  {
    if items != [] {
      var next := d.(entries := d.entries[items[0].path := Regular(items[0].data)]);
      FilledEntries(next, items[1..], if i == 0 then 0 else i - 1);
      assert forall j | 0 <= j < |items| - 1 :: items[1..][j] == items[j + 1];
    }
  }

  /** A finished build is accepted by the check a later run makes. */
  lemma BuiltIsCurrent(t: Target, hash: Bytes -> string)
    requires DistinctPaths(t)
    ensures Current(Built(t, hash), Expected(t, hash), hash)
    ensures ArtifactOf(Built(t, hash)) == Some(t.artifact)
  {
    var d, m, items := Built(t, hash), Expected(t, hash), t.files + t.generated;
    forall row | row in m.files
      ensures RowHolds(d, row, hash)
    {
      var i :| 0 <= i < |m.files| && m.files[i] == row;
      assert items[i] == t.files[i];
      FilledEntries(EMPTY_DIRECTORY, items, i);
    }
    forall row | row in m.generated
      ensures RowHolds(d, row, hash)
    {
      var i :| 0 <= i < |m.generated| && m.generated[i] == row;
      assert items[|t.files| + i] == t.generated[i];
      FilledEntries(EMPTY_DIRECTORY, items, |t.files| + i);
    }
  }

  ghost predicate CollisionFree(hash: Bytes -> string) {
    forall a, b :: hash(a) == hash(b) ==> a == b
  }

  /** The directory holds the item's bytes as a regular file. */
  ghost predicate HoldsItem(d: Directory, item: Item) {
    item.path in d.entries && d.entries[item.path] == Regular(item.data)
  }

  lemma RowsHoldExactly(d: Directory, items: seq<Item>, hash: Bytes -> string)
    requires CollisionFree(hash)
    ensures (forall row | row in RowsOf(items, hash) :: RowHolds(d, row, hash)) <==> forall item | item in items :: HoldsItem(d, item)
  {
    var rows := RowsOf(items, hash);
    if forall row | row in rows :: RowHolds(d, row, hash) {
      forall item | item in items
        ensures HoldsItem(d, item)
      {
        var i :| 0 <= i < |items| && items[i] == item;
        assert rows[i] in rows && RowHolds(d, rows[i], hash);
      }
    }
    if forall item | item in items :: HoldsItem(d, item) {
      forall row | row in rows
        ensures RowHolds(d, row, hash)
      {
        var i :| 0 <= i < |rows| && rows[i] == row;
        assert items[i] in items && HoldsItem(d, items[i]);
      }
    }
  }

  /** With a collision-free digest the manifest pins the snapshot: a directory is current exactly when it carries the
      manifest and holds the bytes of every repository and generated file as a regular file. */
  lemma CurrentExactly(d: Directory, t: Target, hash: Bytes -> string)
    requires CollisionFree(hash)
    ensures Current(d, Expected(t, hash), hash) <==>
              d.manifest == Some(Expected(t, hash)) && forall item | item in t.files + t.generated :: HoldsItem(d, item)
  {
    RowsHoldExactly(d, t.files, hash);
    RowsHoldExactly(d, t.generated, hash);
    hide RowHolds, HoldsItem;
  }

  // ----- every stopping point

  /** The live directory a stopped run may leave: the one it found, none, or the finished build. */
  predicate LiveAmong(found: Option<Directory>, built: Directory, live: Option<Directory>) {
    live == found || live == None || live == Some(built)
  }

  /** Filling touches the temporary directory only. */
  lemma {:induction false} FillingSteps(p: Package, items: seq<Item>, rest: seq<Action>, stop: Stop)
    requires p.temporary.Some?
    ensures var full := p.(temporary := Some(Filled(p.temporary.value, items)));
            var end := Perform(p, Writes(items) + rest, stop);
            || (end.1.Stopped? && !stop.Never? && end.0.live == p.live && end.0.backup == p.backup)
            || exists left: Stop :: (stop.Never? ==> left.Never?) && end == Perform(full, rest, left)
    decreases |items|
  {
    if items == [] {
      assert Writes(items) + rest == rest;
      assert p.(temporary := Some(Filled(p.temporary.value, items))) == p;
    } else {
      var write := WriteEntry(items[0].path, items[0].data);
      assert Writes(items) + rest == [write] + (Writes(items[1..]) + rest);
      PerformStep(p, write, Writes(items[1..]) + rest, stop);
      if !Due(stop) {
        FillingSteps(Apply(p, write), items[1..], rest, Later(stop));
      }
    }
  }

  /** The swap, at any stopping point. */
  lemma SwapSteps(p: Package, stop: Stop)
    requires p.temporary.Some?
    ensures var end := Perform(p, Swap(p), stop);
            && LiveAmong(p.live, p.temporary.value, end.0.live)
            && (end.1.Done? ==> end.0 == Package(p.temporary, None, None))
            && (end.1.Done? || (end.1.Stopped? && !stop.Never?))
            && (end.0.live.None? && p.live.Some? ==> end.0.backup == p.live)
  {
    var dropped := p.(backup := None);
    var rest := if p.live.Some? then [RetireLive, PublishTemporary, DropBackup] else [PublishTemporary];
    if p.backup.Some? {
      PerformStep(p, DropBackup, rest, stop);
      if !Due(stop) { SwapAfterDrop(dropped, Later(stop)); }
    } else {
      assert Swap(p) == rest && p == dropped;
      SwapAfterDrop(p, stop);
    }
  }

  lemma SwapAfterDrop(p: Package, stop: Stop)
    requires p.temporary.Some? && p.backup.None?
    ensures var rest := if p.live.Some? then [RetireLive, PublishTemporary, DropBackup] else [PublishTemporary];
            var end := Perform(p, rest, stop);
            && LiveAmong(p.live, p.temporary.value, end.0.live)
            && (end.1.Done? ==> end.0 == Package(p.temporary, None, None))
            && (end.1.Done? || (end.1.Stopped? && !stop.Never?))
            && (end.0.live.None? && p.live.Some? ==> end.0.backup == p.live)
  {
    if p.live.Some? {
      var retired := Apply(p, RetireLive);
      assert [RetireLive, PublishTemporary, DropBackup] == [RetireLive] + ([PublishTemporary] + ([DropBackup] + []));
      PerformStep(p, RetireLive, [PublishTemporary] + ([DropBackup] + []), stop);
      if !Due(stop) {
        PerformStep(retired, PublishTemporary, [DropBackup] + [], Later(stop));
        if !Due(Later(stop)) {
          PerformStep(Apply(retired, PublishTemporary), DropBackup, [], Later(Later(stop)));
        }
      }
    } else {
      assert [PublishTemporary] == [PublishTemporary] + [];
      PerformStep(p, PublishTemporary, [], stop);
    }
  }

  /** At every stopping point the live directory is the one the run found, absent, or the complete new snapshot; when
      it is absent although there was one, the old one is intact as the backup; and a run that is not stopped ends
      with the new snapshot in place and nothing beside it. */
  lemma SyncLeavesLiveWhole(p: Package, t: Target, stop: Stop, hash: Bytes -> string)
    ensures var end := SyncSpec(p, t, stop, hash);
            && LiveAmong(p.live, Built(t, hash), end.0.live)
            && (end.0.live.None? && p.live.Some? ==> end.0.backup == p.live)
            && (end.1.Done? ==> end.0 == Package(Some(Built(t, hash)), None, None))
            && (stop.Never? ==> !end.1.Stopped?)
  {
    var m := Expected(t, hash);
    if SyncSpec(p, t, stop, hash) == Perform(p, Steps(p, t, hash), stop) {
      var items, swap := t.files + t.generated, Swap(p);
      var rest := Writes(items) + ([WriteManifest(m)] + swap);
      assert Steps(p, t, hash) == [MakeTemporary] + rest;
      PerformStep(p, MakeTemporary, rest, stop);
      if !Due(stop) {
        var begun := Apply(p, MakeTemporary);
        FillingSteps(begun, items, [WriteManifest(m)] + swap, Later(stop));
        var end := Perform(begun, rest, Later(stop));
        if !(end.1.Stopped? && end.0.live == begun.live && end.0.backup == begun.backup && !stop.Never?) {
          var full := begun.(temporary := Some(Filled(EMPTY_DIRECTORY, items)));
          var left: Stop :| (Later(stop).Never? ==> left.Never?) && end == Perform(full, [WriteManifest(m)] + swap, left);
          PerformStep(full, WriteManifest(m), swap, left);
          if !Due(left) {
            var ready := Apply(full, WriteManifest(m));
            assert ready.temporary == Some(Built(t, hash)) && Swap(ready) == swap;
            SwapSteps(ready, Later(left));
          }
        }
      }
    }
  }

  // ----- histories

  datatype Run = Run(target: Target, stop: Stop)

  function History(p: Package, runs: seq<Run>, hash: Bytes -> string): Package {
    if runs == [] then p
    else
      var last := runs[|runs| - 1];
      SyncSpec(History(p, runs[..|runs| - 1], hash), last.target, last.stop, hash).0
  }

  /** A directory that is not this package's snapshot survives any history of its runs, whatever the repository becomes
      and wherever each run is stopped, and nothing is put beside it. */
  lemma {:induction false} ForeignIsNeverReplaced(p: Package, runs: seq<Run>, artifact: string, hash: Bytes -> string)
    requires p.live.Some? && ArtifactOf(p.live.value) != Some(artifact)
    requires forall r | r in runs :: r.target.artifact == artifact
    ensures History(p, runs, hash) == p
    ensures forall r | r in runs :: SyncSpec(p, r.target, r.stop, hash) == (p, RefusedForeign)
  {
    hide Steps, Perform;
    if runs != [] {
      var init, last := runs[..|runs| - 1], runs[|runs| - 1];
      assert last in runs && runs == init + [last];
      ForeignIsNeverReplaced(p, init, artifact, hash);
    }
  }

  lemma {:induction false} ExceptionCleansUp(p: Package, steps: seq<Action>, stop: Stop)
    requires !stop.Killed?
    ensures var end := Perform(p, steps, stop); end.1.Stopped? ==> end.0.temporary.None?
    decreases |steps|
  {
    if steps != [] && !Due(stop) { ExceptionCleansUp(Apply(p, steps[0]), steps[1..], Later(stop)); }
  }

  /** Exceptions leave no temporary directory behind, wherever they are raised in any history of runs; only a kill can. */
  lemma {:induction false} OnlyKillsLeaveTemporary(p: Package, runs: seq<Run>, hash: Bytes -> string)
    requires p.temporary.None? && forall r | r in runs :: !r.stop.Killed?
    ensures History(p, runs, hash).temporary.None?
  {
    if runs != [] {
      var init, last := runs[..|runs| - 1], runs[|runs| - 1];
      assert last in runs && runs == init + [last];
      OnlyKillsLeaveTemporary(p, init, hash);
      var before := History(p, init, hash);
      ExceptionCleansUp(before, Steps(before, last.target, hash), last.stop);
      OnlyDoneOrStopped(before, Steps(before, last.target, hash), last.stop);
      SyncLeavesLiveWhole(before, last.target, last.stop, hash);
    }
  }

  /** A snapshot that some run of this package finished, matching its own manifest. */
  ghost predicate Whole(d: Directory, artifact: string, hash: Bytes -> string) {
    d.manifest.Some? && d.manifest.value.artifact == artifact && Current(d, d.manifest.value, hash)
  }

  /** From an absent or complete snapshot, whatever the repository becomes and wherever each run is killed or raises,
      the live directory is at all times absent or complete. */
  lemma {:induction false} LiveIsAlwaysWhole(p: Package, runs: seq<Run>, artifact: string, hash: Bytes -> string)
    requires p.live.Some? ==> Whole(p.live.value, artifact, hash)
    requires forall r | r in runs :: r.target.artifact == artifact && DistinctPaths(r.target)
    ensures var live := History(p, runs, hash).live;
            live.Some? ==> Whole(live.value, artifact, hash)
  {
    if runs != [] {
      var init, last := runs[..|runs| - 1], runs[|runs| - 1];
      LiveIsAlwaysWhole(p, init, artifact, hash);
      assert last in runs;
      SyncLeavesLiveWhole(History(p, init, hash), last.target, last.stop, hash);
      BuiltIsCurrent(last.target, hash);
    }
  }

  /** Convergence: after any such history one run left to finish ends with a current snapshot, and a further run on the
      unchanged repository finds nothing to do. */
  lemma RerunConverges(p: Package, runs: seq<Run>, t: Target, hash: Bytes -> string)
    requires p.live.Some? ==> Whole(p.live.value, t.artifact, hash)
    requires forall r | r in runs :: r.target.artifact == t.artifact && DistinctPaths(r.target)
    requires DistinctPaths(t)
    ensures var end := SyncSpec(History(p, runs, hash), t, Never, hash).0;
            && end.live.Some? && Current(end.live.value, Expected(t, hash), hash)
            && forall stop: Stop :: SyncSpec(end, t, stop, hash) == (end, UpToDate)
  {
    LiveIsAlwaysWhole(p, runs, t.artifact, hash);
    SyncLeavesLiveWhole(History(p, runs, hash), t, Never, hash);
    BuiltIsCurrent(t, hash);
    UnstoppedOutcome(History(p, runs, hash), t, hash);
  }

  lemma UnstoppedOutcome(p: Package, t: Target, hash: Bytes -> string)
    requires p.live.Some? ==> ArtifactOf(p.live.value) == Some(t.artifact)
    ensures var end := SyncSpec(p, t, Never, hash);
            end.1.Done? || (end == (p, UpToDate) && p.live.Some? && Current(p.live.value, Expected(t, hash), hash))
  {
    SyncLeavesLiveWhole(p, t, Never, hash);
    OnlyDoneOrStopped(p, Steps(p, t, hash), Never);
  }

  lemma {:induction false} OnlyDoneOrStopped(p: Package, steps: seq<Action>, stop: Stop)
    ensures Perform(p, steps, stop).1.Done? || Perform(p, steps, stop).1.Stopped?
    decreases |steps|
  {
    if steps != [] && !Due(stop) {
      OnlyDoneOrStopped(Apply(p, steps[0]), steps[1..], Later(stop));
    }
  }
}
