/** Replacing the packaged C snapshot: build beside it, retire the old directory, rename the new one into place.

    `hash` stands for the hexadecimal SHA-256. A run ends normally, is killed between two steps, or raises at one, in
    which case its handler removes the temporary directory. */
module SnapshotSync {
  import opened Prelude

  datatype Entry = Regular(data: Bytes) | Linked(data: Bytes)

  datatype Row = Row(path: string, size: nat, sha256: string, source: string)

  datatype Manifest = Manifest(artifact: string, files: seq<Row>, generated: seq<Row>)

  /** A directory; its manifest is `None` when missing or unreadable. */
  datatype Directory = Directory(manifest: Option<Manifest>, entries: map<string, Entry>)

  datatype Package = Package(live: Option<Directory>, backup: Option<Directory>, temporary: Option<Directory>)

  /** One file to place: where, under which repository identity, and its bytes. */
  datatype Item = Item(path: string, source: string, data: Bytes)

  /** What the repository says the snapshot should hold. */
  datatype Target = Target(artifact: string, files: seq<Item>, generated: seq<Item>)

  datatype Action =
    | MakeTemporary
    | WriteEntry(path: string, data: Bytes)
    | WriteManifest(manifest: Manifest)
    | DropBackup
    | RetireLive
    | PublishTemporary

  /** Where a run stops early: after `after` completed steps; an unfinished removal may leave `thinned` of the backup. */
  datatype Stop = Never | Killed(after: nat, thinned: Option<Directory>) | Raised(after: nat, thinned: Option<Directory>)

  datatype Outcome = Done | UpToDate | RefusedForeign | Stopped

  const EMPTY_DIRECTORY := Directory(None, map[])

  // ----- specification

  function RowsOf(items: seq<Item>, hash: Bytes -> string): (r: seq<Row>)
    ensures |r| == |items|
    ensures forall i | 0 <= i < |r| :: r[i] == Row(items[i].path, |items[i].data|, hash(items[i].data), items[i].source)
  {
    seq(|items|, i requires 0 <= i < |items| =>
          Row(items[i].path, |items[i].data|, hash(items[i].data), items[i].source))
  }

  function Expected(t: Target, hash: Bytes -> string): Manifest {
    Manifest(t.artifact, RowsOf(t.files, hash), RowsOf(t.generated, hash))
  }

  predicate RowHolds(d: Directory, row: Row, hash: Bytes -> string) {
    row.path in d.entries && d.entries[row.path].Regular?
    && |d.entries[row.path].data| == row.size && hash(d.entries[row.path].data) == row.sha256
  }

  /** `_current`: the manifest is the expected one and every row's file is in place. */
  predicate Current(d: Directory, m: Manifest, hash: Bytes -> string) {
    && d.manifest == Some(m)
    && (forall row | row in m.files :: RowHolds(d, row, hash))
    && (forall row | row in m.generated :: RowHolds(d, row, hash))
  }

  function ArtifactOf(d: Directory): Option<string> {
    if d.manifest.None? then None else Some(d.manifest.value.artifact)
  }

  function Writes(items: seq<Item>): seq<Action> {
    if items == [] then [] else [WriteEntry(items[0].path, items[0].data)] + Writes(items[1..])
  }

  function Swap(p: Package): seq<Action> {
    (if p.backup.Some? then [DropBackup] else [])
    + (if p.live.Some? then [RetireLive, PublishTemporary, DropBackup] else [PublishTemporary])
  }

  function Steps(p: Package, t: Target, hash: Bytes -> string): seq<Action> {
    [MakeTemporary] + Writes(t.files + t.generated) + [WriteManifest(Expected(t, hash))] + Swap(p)
  }

  function Apply(p: Package, a: Action): Package {
    match a
    case MakeTemporary => p.(temporary := Some(EMPTY_DIRECTORY))
    case WriteEntry(path, data) =>
      if p.temporary.None? then p
      else p.(temporary := Some(p.temporary.value.(entries := p.temporary.value.entries[path := Regular(data)])))
    case WriteManifest(m) =>
      if p.temporary.None? then p else p.(temporary := Some(p.temporary.value.(manifest := Some(m))))
    case DropBackup => p.(backup := None)
    case RetireLive => p.(backup := p.live, live := None)
    case PublishTemporary => p.(live := p.temporary, temporary := None)
  }

  predicate Due(stop: Stop) {
    !stop.Never? && stop.after == 0
  }

  function Later(stop: Stop): Stop
    requires !Due(stop)
  {
    if stop.Never? then Never else stop.(after := stop.after - 1)
  }

  /** What an early stop leaves, given the step that was about to happen. */
  function Halt(p: Package, a: Action, stop: Stop): Package
    requires Due(stop)
  {
    p.(temporary := if stop.Raised? then None else p.temporary,
       backup := if a.DropBackup? && stop.thinned.Some? then stop.thinned else p.backup)
  }

  function Perform(p: Package, steps: seq<Action>, stop: Stop): (Package, Outcome)
    decreases |steps|
  {
    if steps == [] then (p, Done)
    else if Due(stop) then (Halt(p, steps[0], stop), Stopped)
    else Perform(Apply(p, steps[0]), steps[1..], Later(stop))
  }

  function SyncSpec(p: Package, t: Target, stop: Stop, hash: Bytes -> string): (Package, Outcome) {
    var m := Expected(t, hash);
    if p.live.Some? && Current(p.live.value, m, hash) then (p, UpToDate)
    else if p.live.Some? && ArtifactOf(p.live.value) != Some(t.artifact) then (p, RefusedForeign)
    else Perform(p, Steps(p, t, hash), stop)
  }

  // ----- the program's procedure

  lemma PerformStep(p: Package, a: Action, rest: seq<Action>, stop: Stop)
    ensures Perform(p, [a] + rest, stop) ==
            if Due(stop) then (Halt(p, a, stop), Stopped) else Perform(Apply(p, a), rest, Later(stop))
  {
    assert ([a] + rest)[1..] == rest;
  }

  class PackageRoot {
    var live: Option<Directory>
    var backup: Option<Directory>
    var temporary: Option<Directory>

    constructor (p: Package)
      ensures Contents() == p
    {
      live, backup, temporary := p.live, p.backup, p.temporary;
    }

    function Contents(): Package
      reads this
    {
      Package(live, backup, temporary)
    }

    method Sync(t: Target, stop: Stop, hash: Bytes -> string) returns (outcome: Outcome)
      modifies this
      ensures (Contents(), outcome) == SyncSpec(old(Contents()), t, stop, hash)
    {
      var expected := Expected(t, hash);
      if live.Some? && Current(live.value, expected, hash) {
        return UpToDate;
      }
      if live.Some? && ArtifactOf(live.value) != Some(t.artifact) {
        return RefusedForeign;
      }
      ghost var swap := Swap(old(Contents()));
      ghost var writes := Writes(t.files + t.generated);
      assert Steps(old(Contents()), t, hash) == [MakeTemporary] + (writes + ([WriteManifest(expected)] + swap));
      PerformStep(Contents(), MakeTemporary, writes + ([WriteManifest(expected)] + swap), stop);
      if Due(stop) {
        Abandon(stop);
        return Stopped;
      }
      temporary := Some(EMPTY_DIRECTORY);
      var stopped, left := Fill(t.files + t.generated, Later(stop), [WriteManifest(expected)] + swap);
      if stopped {
        return Stopped;
      }
      PerformStep(Contents(), WriteManifest(expected), swap, left);
      if Due(left) {
        Abandon(left);
        return Stopped;
      }
      temporary := Some(temporary.value.(manifest := Some(expected)));
      outcome := SwapIn(Later(left));
    }

    /** The handler: nothing on a kill, the temporary directory on an exception. */
    method Abandon(stop: Stop)
      modifies this`temporary
      ensures temporary == if stop.Raised? then None else old(temporary)
    {
      if stop.Raised? {
        temporary := None;
      }
    }

    /** Copies the files into the temporary directory one by one; `rest` is what remains to be done afterwards. */
    method Fill(items: seq<Item>, stop: Stop, ghost rest: seq<Action>) returns (stopped: bool, left: Stop)
      requires temporary.Some?
      modifies this`temporary
      ensures stopped ==> (Contents(), Stopped) == Perform(old(Contents()), Writes(items) + rest, stop)
      ensures !stopped ==> temporary.Some?
                           && Perform(old(Contents()), Writes(items) + rest, stop) == Perform(Contents(), rest, left)
    {
      left := stop;
      assert items[0..] == items;
      for i := 0 to |items|
        invariant temporary.Some?
        invariant Perform(old(Contents()), Writes(items) + rest, stop)
                  == Perform(Contents(), Writes(items[i..]) + rest, left)
      {
        assert items[i..][1..] == items[i + 1..];
        ghost var write := WriteEntry(items[i].path, items[i].data);
        assert Writes(items[i..]) + rest == [write] + (Writes(items[i + 1..]) + rest);
        PerformStep(Contents(), write, Writes(items[i + 1..]) + rest, left);
        if Due(left) {
          Abandon(left);
          return true, left;
        }
        temporary := Some(temporary.value.(entries := temporary.value.entries[items[i].path := Regular(items[i].data)]));
        left := Later(left);
      }
      assert Writes(items[|items|..]) + rest == rest;
      stopped := false;
    }

    /** The swap itself. */
    method SwapIn(stop: Stop) returns (outcome: Outcome)
      requires temporary.Some?
      modifies this
      ensures (Contents(), outcome) == Perform(old(Contents()), Swap(old(Contents())), stop)
    {
      var left := stop;
      ghost var rest := if live.Some? then [RetireLive, PublishTemporary, DropBackup] else [PublishTemporary];
      if backup.Some? {
        PerformStep(Contents(), DropBackup, rest, left);
        if Due(left) {
          RemoveBackup(left);
          return Stopped;
        }
        backup := None;
        left := Later(left);
      } else {
        assert Swap(old(Contents())) == rest;
      }
      if live.Some? {
        assert rest == [RetireLive] + ([PublishTemporary] + ([DropBackup] + []));
        PerformStep(Contents(), RetireLive, [PublishTemporary] + ([DropBackup] + []), left);
        if Due(left) {
          Abandon(left);
          return Stopped;
        }
        live, backup := None, live;
        left := Later(left);
      } else {
        assert rest == [PublishTemporary] + [];
      }
      ghost var last := if backup.Some? then [DropBackup] + [] else [];
      PerformStep(Contents(), PublishTemporary, last, left);
      if Due(left) {
        Abandon(left);
        return Stopped;
      }
      live, temporary := temporary, None;
      left := Later(left);
      if backup.Some? {
        PerformStep(Contents(), DropBackup, [], left);
        if Due(left) {
          RemoveBackup(left);
          return Stopped;
        }
        backup := None;
      }
      return Done;
    }

    /** A removal of the backup that does not finish. */
    method RemoveBackup(stop: Stop)
      requires Due(stop)
      modifies this
      ensures Contents() == Halt(old(Contents()), DropBackup, stop)
    {
      if stop.thinned.Some? {
        backup := stop.thinned;
      }
      Abandon(stop);
    }
  }
}
