/** What a run of the snapshot writer builds and when it builds, refuses or finds nothing to do. */
module SnapshotExact {
  import opened Prelude
  import opened SnapshotSync
  import opened SnapshotSwap

  /** One manifest row per item, in order: path, size, digest and repository identity. */
  ghost predicate Lists(rows: seq<Row>, items: seq<Item>, hash: Bytes -> string) {
    && |rows| == |items|
    && forall i | 0 <= i < |rows| ::
         && rows[i].path == items[i].path && rows[i].size == |items[i].data|
         && rows[i].sha256 == hash(items[i].data) && rows[i].source == items[i].source
  }

  /** The manifest names the artifact, and lists repository files and generated files apart. */
  ghost predicate Describes(m: Manifest, t: Target, hash: Bytes -> string) {
    m.artifact == t.artifact && Lists(m.files, t.files, hash) && Lists(m.generated, t.generated, hash)
  }

  lemma ExpectedDescribes(t: Target, hash: Bytes -> string, m: Manifest)
    ensures Describes(m, t, hash) <==> m == Expected(t, hash)
  {
    var e := Expected(t, hash);
    if Describes(m, t, hash) {
      assert m.files == e.files && m.generated == e.generated;
    }
  }

  lemma {:induction false} FilledKeys(d: Directory, items: seq<Item>)
    ensures Filled(d, items).entries.Keys == d.entries.Keys + set i | 0 <= i < |items| :: items[i].path
    ensures Filled(d, items).manifest == d.manifest
    decreases |items|
  {
    if items != [] {
      var next := d.(entries := d.entries[items[0].path := Regular(items[0].data)]);
      FilledKeys(next, items[1..]);
      var all, rest := set i | 0 <= i < |items| :: items[i].path, set i | 0 <= i < |items[1..]| :: items[1..][i].path;
      forall p
        ensures p in all <==> p == items[0].path || p in rest
      {
        if p in all {
          var i :| 0 <= i < |items| && items[i].path == p;
          if i > 0 { assert items[1..][i - 1].path == p; }
        }
        if p in rest {
          var i :| 0 <= i < |items[1..]| && items[1..][i].path == p;
          assert items[i + 1].path == p;
        }
      }
    }
  }

  /** A finished build holds the manifest and, as regular files, exactly the bytes of the repository and generated files. */
  lemma BuiltExactly(t: Target, hash: Bytes -> string)
    requires DistinctPaths(t)
    ensures var d, items := Built(t, hash), t.files + t.generated;
            && d.manifest.Some? && Describes(d.manifest.value, t, hash)
            && d.entries.Keys == (set i | 0 <= i < |items| :: items[i].path)
            && forall i | 0 <= i < |items| :: d.entries[items[i].path] == Regular(items[i].data)
  {
    var items := t.files + t.generated;
    ExpectedDescribes(t, hash, Expected(t, hash));
    FilledKeys(EMPTY_DIRECTORY, items);
    forall i | 0 <= i < |items|
      ensures items[i].path in Built(t, hash).entries && Built(t, hash).entries[items[i].path] == Regular(items[i].data)
    {
      FilledEntries(EMPTY_DIRECTORY, items, i);
    }
  }

  /** The directory has this manifest, and every listed file as a regular file of the listed size and digest. */
  ghost predicate UpToDateWith(d: Directory, t: Target, hash: Bytes -> string) {
    && d.manifest.Some? && Describes(d.manifest.value, t, hash)
    && forall item | item in t.files + t.generated ::
         && item.path in d.entries && d.entries[item.path].Regular?
         && |d.entries[item.path].data| == |item.data| && hash(d.entries[item.path].data) == hash(item.data)
  }

  lemma ItemsHold(d: Directory, items: seq<Item>, hash: Bytes -> string)
    ensures (forall row | row in RowsOf(items, hash) :: RowHolds(d, row, hash)) <==>
            forall item | item in items ::
              && item.path in d.entries && d.entries[item.path].Regular?
              && |d.entries[item.path].data| == |item.data| && hash(d.entries[item.path].data) == hash(item.data)
  {
    var rows := RowsOf(items, hash);
    forall i | 0 <= i < |items|
      ensures rows[i] in rows && items[i] in items
    {}
    if forall row | row in rows :: RowHolds(d, row, hash) {
      forall item | item in items
        ensures item.path in d.entries && d.entries[item.path].Regular?
        ensures |d.entries[item.path].data| == |item.data| && hash(d.entries[item.path].data) == hash(item.data)
      {
        var i :| 0 <= i < |items| && items[i] == item;
        assert RowHolds(d, rows[i], hash);
      }
    }
  }

  lemma CurrentMeans(d: Directory, t: Target, hash: Bytes -> string)
    ensures Current(d, Expected(t, hash), hash) <==> UpToDateWith(d, t, hash)
  {
    if d.manifest.Some? { ExpectedDescribes(t, hash, d.manifest.value); }
    ItemsHold(d, t.files, hash);
    ItemsHold(d, t.generated, hash);
    hide RowHolds;
  }

  /** A run left to finish does nothing when the live directory is up to date; refuses, touching nothing, when it exists and
      carries no manifest of this artifact; and otherwise leaves the new snapshot with nothing beside it. */
  lemma SyncExactly(p: Package, t: Target, hash: Bytes -> string)
    ensures SyncSpec(p, t, Never, hash)
            == if p.live.Some? && UpToDateWith(p.live.value, t, hash) then (p, UpToDate)
               else if p.live.Some? && (p.live.value.manifest.None? || p.live.value.manifest.value.artifact != t.artifact) then
                 (p, RefusedForeign)
               else (Package(Some(Built(t, hash)), None, None), Done)
  {
    if p.live.Some? { CurrentMeans(p.live.value, t, hash); }
    hide UpToDateWith, Current, Built, Steps, Perform;
    SyncLeavesLiveWhole(p, t, Never, hash);
    OnlyDoneOrStopped(p, Steps(p, t, hash), Never);
  }
}
