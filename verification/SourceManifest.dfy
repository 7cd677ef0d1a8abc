/** The native source manifest: one CMake `set` block listing every `src/**/*.c` file once, in order.

    `isSource` stands for the checks on one path, `isFile` for the presence of the file. Rows are already stripped. */
module SourceManifest {
  import opened Prelude
  import opened ManifestRows
  import opened Ordering
  import opened NativeIncludes

  datatype ManifestError = ExpectedStart | AfterEnd | BadSourcePath | RepeatedSource | MissingFile | Incomplete | NoSources
                         | Unsorted | Unlisted | Stale | NoOwner

  datatype SourceEntry = SourceEntry(component: string, path: string)

  const MANIFEST_START := "set(ARCHBIRD_DECLARED_CORE_SOURCE_PATHS"

  /** The parser between rows. */
  datatype Reading = Reading(started: bool, finished: bool, paths: seq<string>)

  function ReadRow(r: Reading, row: string, isSource: string -> bool, isFile: string -> bool): Result<Reading, ManifestError> {
    if Ignored(row) then Ok(r)
    else if !r.started then if row != MANIFEST_START then Err(ExpectedStart) else Ok(r.(started := true))
    else if r.finished then Err(AfterEnd)
    else if row == ")" then Ok(r.(finished := true))
    else if !isSource(row) then Err(BadSourcePath)
    else if row in r.paths then Err(RepeatedSource)
    else if !isFile(row) then Err(MissingFile)
    else Ok(r.(paths := r.paths + [row]))
  }

  function ReadRows(r: Reading, rows: seq<string>, isSource: string -> bool, isFile: string -> bool)
    : Result<Reading, ManifestError>
    decreases |rows|
  {
    if rows == [] then Ok(r) else
      var next :- ReadRow(r, rows[0], isSource, isFile);
      ReadRows(next, rows[1..], isSource, isFile)
  }

  function LoadedManifest(rows: seq<string>, isSource: string -> bool, isFile: string -> bool)
    : Result<seq<string>, ManifestError>
  {
    var end :- ReadRows(Reading(false, false, []), rows, isSource, isFile);
    if !end.started || !end.finished then Err(Incomplete)
    else if end.paths == [] then Err(NoSources)
    else if end.paths != Sorted(Elements(end.paths)) then Err(Unsorted)
    else Ok(end.paths)
  }

  /** The line loop. */
  method LoadManifest(rows: seq<string>, isSource: string -> bool, isFile: string -> bool)
    returns (r: Result<seq<string>, ManifestError>)
    ensures r == LoadedManifest(rows, isSource, isFile)
  {
    var started, finished, paths := false, false, [];
    var seen: set<string> := {};
    ghost var whole := ReadRows(Reading(false, false, []), rows, isSource, isFile);
    assert rows[0..] == rows;
    for i := 0 to |rows|
      invariant ReadRows(Reading(started, finished, paths), rows[i..], isSource, isFile) == whole
      invariant forall p :: p in seen <==> p in paths
    {
      assert rows[i..][1..] == rows[i + 1..];
      var row := rows[i];
      if Ignored(row) {
        continue;
      }
      if !started {
        if row != MANIFEST_START {
          return Err(ExpectedStart);
        }
        started := true;
        continue;
      }
      if finished {
        return Err(AfterEnd);
      }
      if row == ")" {
        finished := true;
        continue;
      }
      if !isSource(row) {
        return Err(BadSourcePath);
      }
      if row in seen {
        return Err(RepeatedSource);
      }
      seen := seen + {row};
      if !isFile(row) {
        return Err(MissingFile);
      }
      paths := paths + [row];
    }
    if !started || !finished {
      return Err(Incomplete);
    }
    if paths == [] {
      return Err(NoSources);
    }
    if paths != Sorted(Elements(paths)) {
      return Err(Unsorted);
    }
    return Ok(paths);
  }

  // ----- the listed files against the tree and the reviewed components

  function Entries(paths: seq<string>, components: ComponentMap, matches: Matches): Result<seq<SourceEntry>, ManifestError> {
    if paths == [] then Ok([]) else
      var owner := RequireOwner(paths[0], components, matches);
      if owner.Err? then Err(NoOwner) else
        var rest :- Entries(paths[1..], components, matches);
        Ok([SourceEntry(owner.value, paths[0])] + rest)
  }

  function ValidatedManifest(rows: seq<string>, actual: set<string>, isSource: string -> bool, components: ComponentMap,
                             matches: Matches): Result<seq<SourceEntry>, ManifestError>
  {
    var paths :- LoadedManifest(rows, isSource, path => path in actual);
    var declared := Elements(paths);
    if actual - declared != {} then Err(Unlisted)
    else if declared - actual != {} then Err(Stale)
    else Entries(paths, components, matches)
  }

  method AssignOwners(paths: seq<string>, components: ComponentMap, matches: Matches)
    returns (r: Result<seq<SourceEntry>, ManifestError>)
    ensures r == Entries(paths, components, matches)
  {
    var entries: seq<SourceEntry> := [];
    assert paths[0..] == paths;
    PrependNothing(Entries(paths, components, matches));
    for i := 0 to |paths|
      invariant Entries(paths, components, matches) == Prepend(entries, Entries(paths[i..], components, matches))
    {
      assert paths[i..][1..] == paths[i + 1..];
      var owner := RequireOwner(paths[i], components, matches);
      if owner.Err? {
        return Err(NoOwner);
      }
      var entry := SourceEntry(owner.value, paths[i]);
      PrependMore(entries, entry, Entries(paths[i + 1..], components, matches));
      entries := entries + [entry];
    }
    assert paths[|paths|..] == [] && entries + [] == entries;
    return Ok(entries);
  }

  method ValidateManifest(rows: seq<string>, actual: set<string>, isSource: string -> bool, components: ComponentMap,
                          matches: Matches) returns (r: Result<seq<SourceEntry>, ManifestError>)
    ensures r == ValidatedManifest(rows, actual, isSource, components, matches)
  {
    hide LoadedManifest, Entries;
    var paths := LoadManifest(rows, isSource, path => path in actual);
    if paths.Err? {
      return Err(paths.error);
    }
    var declared := Elements(paths.value);
    if actual - declared != {} {
      return Err(Unlisted);
    }
    if declared - actual != {} {
      return Err(Stale);
    }
    r := AssignOwners(paths.value, components, matches);
  }

  lemma PrependNothing(r: Result<seq<SourceEntry>, ManifestError>)
    ensures Prepend([], r) == r
  {
    if r.Ok? { assert [] + r.value == r.value; }
  }

  lemma PrependMore(entries: seq<SourceEntry>, entry: SourceEntry, rest: Result<seq<SourceEntry>, ManifestError>)
    ensures Prepend(entries + [entry], rest) == Prepend(entries, Prepend([entry], rest))
  {
    if rest.Ok? { assert entries + [entry] + rest.value == entries + ([entry] + rest.value); }
  }

  ghost function Prepend(entries: seq<SourceEntry>, rest: Result<seq<SourceEntry>, ManifestError>)
    : Result<seq<SourceEntry>, ManifestError>
  {
    if rest.Err? then rest else Ok(entries + rest.value)
  }

  // ----- exactly what is accepted

  lemma {:induction false} IgnoredRowsVanish(r: Reading, rows: seq<string>, isSource: string -> bool, isFile: string -> bool)
    ensures ReadRows(r, rows, isSource, isFile) == ReadRows(r, Significant(rows), isSource, isFile)
    decreases |rows|
  {
    if rows != [] {
      if Ignored(rows[0]) {
        IgnoredRowsVanish(r, rows[1..], isSource, isFile);
        assert Significant(rows) == [] + Significant(rows[1..]) == Significant(rows[1..]);
      } else {
        var rest := Significant(rows[1..]);
        assert Significant(rows) == [rows[0]] + rest && ([rows[0]] + rest)[1..] == rest;
        assert ([rows[0]] + rest)[0] == rows[0];
        if ReadRow(r, rows[0], isSource, isFile).Ok? {
          IgnoredRowsVanish(ReadRow(r, rows[0], isSource, isFile).value, rows[1..], isSource, isFile);
        }
      }
    }
  }

  ghost predicate Listable(path: string, isSource: string -> bool, isFile: string -> bool) {
    path != ")" && !Ignored(path) && isSource(path) && isFile(path)
  }

  ghost predicate AllListable(paths: seq<string>, isSource: string -> bool, isFile: string -> bool) {
    forall p | p in paths :: Listable(p, isSource, isFile)
  }

  /** The paths are new, also with respect to each other. */
  ghost predicate Fresh(paths: seq<string>, before: seq<string>) {
    forall i, j | 0 <= i < |paths| :: paths[i] !in before && (0 <= j < i ==> paths[j] != paths[i])
  }

  lemma FreshFirst(path: string, rest: seq<string>, before: seq<string>)
    ensures Fresh([path] + rest, before) <==> path !in before && Fresh(rest, before + [path])
  {
    var all := [path] + rest;
    assert forall i | 0 <= i < |rest| :: all[i + 1] == rest[i];
    if Fresh(all, before) {
      assert all[0] == path;
      forall i, j | 0 <= i < |rest|
        ensures rest[i] !in before + [path] && (0 <= j < i ==> rest[j] != rest[i])
      {
        assert all[i + 1] !in before && all[0] != all[i + 1];
        if 0 <= j < i { assert all[j + 1] != all[i + 1]; }
      }
    }
  }

  lemma ReadFirst(r: Reading, row: string, rest: seq<string>, isSource: string -> bool, isFile: string -> bool)
    requires ReadRow(r, row, isSource, isFile).Ok?
    ensures ReadRows(r, [row] + rest, isSource, isFile)
            == ReadRows(ReadRow(r, row, isSource, isFile).value, rest, isSource, isFile)
  {
    hide ReadRow;
    assert ([row] + rest)[1..] == rest;
  }

  /** Inside the block, new listable paths and the closing row are read in full. */
  lemma {:induction false} BlockIsRead(r: Reading, paths: seq<string>, isSource: string -> bool, isFile: string -> bool)
    requires r.started && !r.finished && Fresh(paths, r.paths) && AllListable(paths, isSource, isFile)
    ensures ReadRows(r, paths + [")"], isSource, isFile) == Ok(Reading(true, true, r.paths + paths))
    decreases |paths|
  {
    if paths == [] {
      assert r.paths + paths == r.paths && paths + [")"] == [")"] + [];
      ReadFirst(r, ")", [], isSource, isFile);
    } else {
      var rest := paths[1..];
      assert paths == [paths[0]] + rest && paths + [")"] == [paths[0]] + (rest + [")"]);
      FreshFirst(paths[0], rest, r.paths);
      assert Listable(paths[0], isSource, isFile);
      ReadFirst(r, paths[0], rest + [")"], isSource, isFile);
      BlockIsRead(r.(paths := r.paths + [paths[0]]), rest, isSource, isFile);
      assert r.paths + [paths[0]] + rest == r.paths + paths;
    }
  }

  lemma NothingAfterEnd(r: Reading, rows: seq<string>, isSource: string -> bool, isFile: string -> bool)
    requires r.started && r.finished && forall row | row in rows :: !Ignored(row)
    ensures ReadRows(r, rows, isSource, isFile) == if rows == [] then Ok(r) else Err(AfterEnd)
  {
    if rows != [] { assert rows[0] in rows; }
  }

  /** Significant rows read from inside the block to its end are new listable paths and the closing row. */
  lemma {:induction false} ReadIsBlock(r: Reading, rows: seq<string>, isSource: string -> bool, isFile: string -> bool)
      returns (paths: seq<string>)
    requires r.started && !r.finished && forall row | row in rows :: !Ignored(row)
    requires ReadRows(r, rows, isSource, isFile).Ok? && ReadRows(r, rows, isSource, isFile).value.finished
    ensures rows == paths + [")"] && Fresh(paths, r.paths) && AllListable(paths, isSource, isFile)
    ensures ReadRows(r, rows, isSource, isFile).value.paths == r.paths + paths
    decreases |rows|
  {
    var row, rest := rows[0], rows[1..];
    assert row in rows && forall x | x in rest :: x in rows;
    if row == ")" {
      paths := [];
      NothingAfterEnd(r.(finished := true), rest, isSource, isFile);
    } else {
      var tail := ReadIsBlock(r.(paths := r.paths + [row]), rest, isSource, isFile);
      paths := [row] + tail;
      FreshFirst(row, tail, r.paths);
      assert rows == [row] + rest && paths + [")"] == [row] + (tail + [")"]);
      assert r.paths + [row] + tail == r.paths + paths;
    }
  }

  ghost predicate IsManifest(rows: seq<string>, paths: seq<string>) {
    Significant(rows) == [MANIFEST_START] + (paths + [")"])
  }

  lemma StartIsSignificant()
    ensures !Ignored(MANIFEST_START)
  {}

  lemma AscendingIsFresh(paths: seq<string>)
    ensures paths == Sorted(Elements(paths)) <==> Ascending(paths)
    ensures Ascending(paths) ==> Fresh(paths, [])
  {
    if Ascending(paths) { AscendingUnique(paths, Sorted(Elements(paths))); }
  }

  /** A manifest is loaded exactly when, comments aside, it is one block of listable paths in strictly ascending order. */
  lemma LoadsExactly(rows: seq<string>, paths: seq<string>, isSource: string -> bool, isFile: string -> bool)
    ensures LoadedManifest(rows, isSource, isFile) == Ok(paths) <==>
            IsManifest(rows, paths) && paths != [] && Ascending(paths) && AllListable(paths, isSource, isFile)
  {
    var start, kept := Reading(false, false, []), Significant(rows);
    IgnoredRowsVanish(start, rows, isSource, isFile);
    SignificantRows(rows);
    AscendingIsFresh(paths);
    StartIsSignificant();
    hide Significant;
    if LoadedManifest(rows, isSource, isFile) == Ok(paths) {
      assert kept == [MANIFEST_START] + kept[1..];
      ReadFirst(start, MANIFEST_START, kept[1..], isSource, isFile);
      var found := ReadIsBlock(Reading(true, false, []), kept[1..], isSource, isFile);
      assert [] + found == found;
    }
    if IsManifest(rows, paths) && paths != [] && Ascending(paths) && AllListable(paths, isSource, isFile) {
      ReadFirst(start, MANIFEST_START, paths + [")"], isSource, isFile);
      BlockIsRead(Reading(true, false, []), paths, isSource, isFile);
      assert [] + paths == paths;
    }
  }

  /** The entries are the paths in order, each with its one owner. */
  ghost predicate AreEntries(entries: seq<SourceEntry>, paths: seq<string>, components: ComponentMap, matches: Matches) {
    |entries| == |paths| && forall k | 0 <= k < |paths| ::
      entries[k].path == paths[k] && Owners(paths[k], components, matches) == {entries[k].component}
  }

  lemma {:induction false} EntriesExactly(paths: seq<string>, components: ComponentMap, matches: Matches)
    ensures Entries(paths, components, matches).Ok? <==> forall p | p in paths :: |Owners(p, components, matches)| == 1
    ensures Entries(paths, components, matches).Ok? ==>
              AreEntries(Entries(paths, components, matches).value, paths, components, matches)
  {
    hide Owners, AreEntries;
    if paths == [] {
      NoEntries(components, matches);
    } else {
      var owner, rest := RequireOwner(paths[0], components, matches), Entries(paths[1..], components, matches);
      EntriesExactly(paths[1..], components, matches);
      assert paths == [paths[0]] + paths[1..];
      if owner.Ok? && rest.Ok? { FirstEntry(paths[0], owner.value, paths[1..], rest.value, components, matches); }
    }
  }

  lemma NoEntries(components: ComponentMap, matches: Matches)
    ensures AreEntries([], [], components, matches)
  {}

  lemma FirstEntry(path: string, owner: string, paths: seq<string>, entries: seq<SourceEntry>, components: ComponentMap,
                   matches: Matches)
    requires Owners(path, components, matches) == {owner} && AreEntries(entries, paths, components, matches)
    ensures AreEntries([SourceEntry(owner, path)] + entries, [path] + paths, components, matches)
  {
    hide Owners;
  }

  predicate Legal(path: string, isSource: string -> bool) {
    path != ")" && !Ignored(path) && isSource(path)
  }

  /** Loading lists the whole tree exactly when the block is its ascending list. */
  lemma LoadsTree(rows: seq<string>, actual: set<string>, isSource: string -> bool)
    ensures var r := LoadedManifest(rows, isSource, path => path in actual);
            && (r == Ok(Sorted(actual)) <==> r.Ok? && Elements(r.value) == actual)
            && (r == Ok(Sorted(actual)) <==>
                actual != {} && IsManifest(rows, Sorted(actual)) && forall p | p in actual :: Legal(p, isSource))
  {
    var isFile, sorted := (path: string) => path in actual, Sorted(actual);
    assert forall p :: p in sorted <==> p in Elements(sorted);
    NoElements(sorted);
    LoadsExactly(rows, sorted, isSource, isFile);
    var loaded := LoadedManifest(rows, isSource, path => path in actual);
    assert (path => path in actual) == isFile;
    if loaded.Ok? {
      LoadsExactly(rows, loaded.value, isSource, isFile);
      if Elements(loaded.value) == actual { AscendingUnique(loaded.value, sorted); }
    }
    hide LoadedManifest, IsManifest, Ignored;
  }

  /** A manifest is valid exactly when it is the ascending list of all native sources in the tree, each of them a legal
      path with one reviewed owner; the entries are then that list with the owners. */
  lemma ValidatesExactly(rows: seq<string>, actual: set<string>, isSource: string -> bool, components: ComponentMap,
                         matches: Matches)
    ensures var r := ValidatedManifest(rows, actual, isSource, components, matches);
            && (r.Ok? <==> actual != {} && IsManifest(rows, Sorted(actual))
                           && forall p | p in actual :: Legal(p, isSource) && |Owners(p, components, matches)| == 1)
            && (r.Ok? ==> AreEntries(r.value, Sorted(actual), components, matches))
  {
    LoadsTree(rows, actual, isSource);
    EntriesExactly(Sorted(actual), components, matches);
    assert forall p :: p in Sorted(actual) <==> p in Elements(Sorted(actual));
    hide LoadedManifest, IsManifest, Entries, Owners, Legal, AreEntries;
    var loaded := LoadedManifest(rows, isSource, path => path in actual);
    if loaded.Ok? {
      assert Elements(loaded.value) == actual <==>
             actual - Elements(loaded.value) == {} && Elements(loaded.value) - actual == {};
    }
  }
}
