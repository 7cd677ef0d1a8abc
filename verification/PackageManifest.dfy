/** Which package manifests the build accepts, and which identities follow from the core identity. */
module PackageManifest {
  import opened Prelude
  import opened Ordering
  import opened PosixPath
  import opened SourceIdentity
  import opened SameIdentity
  import opened MaterialDetermines

  // ----- accepted manifests

  /** A relative path that stays inside its tree. */
  predicate Inside(path: string) {
    !IsAbsolute(path) && ".." !in Components(path)
  }

  /** The row names a regular file of the snapshot, inside it, with its size and digest, and a source inside its tree. */
  predicate RowFits(row: Row, snapshot: Snapshot, hash: Hash) {
    && row.path.Some? && Inside(row.path.value) && (row.source.Some? ==> Inside(row.source.value))
    && var path := AsPosix(row.path.value);
       path in snapshot && snapshot[path].Regular? && |snapshot[path].data| == row.size && hash(snapshot[path].data) == row.sha256
  }

  ghost predicate AllFit(rows: seq<Row>, snapshot: Snapshot, hash: Hash) {
    forall row | row in rows :: RowFits(row, snapshot, hash)
  }

  /** The normalised paths of the rows, in order. */
  ghost function PathsOf(rows: seq<Row>): (r: seq<string>)
    ensures |r| == |rows|
  {
    seq(|rows|, i requires 0 <= i < |rows| => if rows[i].path.Some? then AsPosix(rows[i].path.value) else "")
  }

  /** The table gives each row's path its normalised source, the path itself where the row names none. */
  ghost predicate Tabulates(sources: map<string, string>, rows: seq<Row>) {
    forall row | row in rows && row.path.Some? ::
      AsPosix(row.path.value) in sources
      && sources[AsPosix(row.path.value)] == AsPosix(if row.source.Some? then row.source.value else row.path.value)
  }

  lemma FirstRow(rows: seq<Row>, snapshot: Snapshot, hash: Hash)
    requires rows != []
    ensures AllFit(rows, snapshot, hash) <==> RowFits(rows[0], snapshot, hash) && AllFit(rows[1..], snapshot, hash)
    ensures PathsOf(rows) == [PathsOf(rows)[0]] + PathsOf(rows[1..])
  {
    assert rows == [rows[0]] + rows[1..];
    hide RowFits;
  }

  lemma RowStep(done: Accepted, row: Row, snapshot: Snapshot, hash: Hash)
    ensures AcceptRow(done, row, snapshot, hash).Ok? <==> RowFits(row, snapshot, hash)
    ensures RowFits(row, snapshot, hash) ==>
              var path := AsPosix(row.path.value);
              AcceptRow(done, row, snapshot, hash)
              == Ok(Accepted(done.paths + [path],
                             done.sources[path := AsPosix(if row.source.Some? then row.source.value else row.path.value)]))
  {
    hide AsPosix, Components;
  }

  lemma {:induction false} RowsStep(done: Accepted, rows: seq<Row>, snapshot: Snapshot, hash: Hash)
    ensures AcceptRows(done, rows, snapshot, hash).Ok? <==> AllFit(rows, snapshot, hash)
    ensures AllFit(rows, snapshot, hash) ==> AcceptRows(done, rows, snapshot, hash).value.paths == done.paths + PathsOf(rows)
    ensures AllFit(rows, snapshot, hash) ==>
              forall p | p in done.sources && p !in PathsOf(rows) ::
                p in AcceptRows(done, rows, snapshot, hash).value.sources
                && AcceptRows(done, rows, snapshot, hash).value.sources[p] == done.sources[p]
    decreases |rows|
  {
    hide RowFits, AcceptRow, AsPosix, AllFit;
    if rows == [] {
      EmptyFits(snapshot, hash);
      assert done.paths + PathsOf(rows) == done.paths;
    } else {
      FirstRow(rows, snapshot, hash);
      RowStep(done, rows[0], snapshot, hash);
      if RowFits(rows[0], snapshot, hash) {
        FitsHasPath(rows[0], snapshot, hash);
        var next := AcceptRow(done, rows[0], snapshot, hash).value;
        RowsStep(next, rows[1..], snapshot, hash);
        assert next.paths + PathsOf(rows[1..]) == done.paths + PathsOf(rows);
      }
    }
  }

  lemma EmptyFits(snapshot: Snapshot, hash: Hash)
    ensures AllFit([], snapshot, hash)
  {}

  lemma FitsHasPath(row: Row, snapshot: Snapshot, hash: Hash)
    requires RowFits(row, snapshot, hash)
    ensures row.path.Some?
  {}

  /** With distinct paths the table keeps each row's source. */
  lemma {:induction false} TableStep(done: Accepted, rows: seq<Row>, snapshot: Snapshot, hash: Hash)
    requires AllFit(rows, snapshot, hash)
    requires forall i, j | 0 <= i < j < |rows| :: PathsOf(rows)[i] != PathsOf(rows)[j]
    ensures AcceptRows(done, rows, snapshot, hash).Ok?
    ensures Tabulates(AcceptRows(done, rows, snapshot, hash).value.sources, rows)
    decreases |rows|
  {
    hide RowFits, AcceptRow, AsPosix, AllFit, Tabulates;
    RowsStep(done, rows, snapshot, hash);
    if rows == [] {
      NothingTabulated(AcceptRows(done, rows, snapshot, hash).value.sources);
    } else {
      FirstRow(rows, snapshot, hash);
      RowStep(done, rows[0], snapshot, hash);
      FitsHasPath(rows[0], snapshot, hash);
      var next := AcceptRow(done, rows[0], snapshot, hash).value;
      var all, rest := PathsOf(rows), PathsOf(rows[1..]);
      assert forall i | 0 <= i < |rest| :: rest[i] == all[i + 1];
      TableStep(next, rows[1..], snapshot, hash);
      RowsStep(next, rows[1..], snapshot, hash);
      assert all[0] !in rest;
      FirstTabulated(AcceptRows(next, rows[1..], snapshot, hash).value.sources, rows);
    }
  }

  lemma NothingTabulated(sources: map<string, string>)
    ensures Tabulates(sources, [])
  {}

  lemma FirstTabulated(sources: map<string, string>, rows: seq<Row>)
    requires rows != [] && rows[0].path.Some? && Tabulates(sources, rows[1..])
    requires AsPosix(rows[0].path.value) in sources
    requires sources[AsPosix(rows[0].path.value)]
             == AsPosix(if rows[0].source.Some? then rows[0].source.value else rows[0].path.value)
    ensures Tabulates(sources, rows)
  {
    assert rows == [rows[0]] + rows[1..];
    hide AsPosix;
  }

  /** A manifest is accepted exactly when every row fits the snapshot and the normalised paths ascend strictly; the build
      then keeps these paths and each one's source. */
  lemma ManifestAcceptedExactly(rows: seq<Row>, snapshot: Snapshot, hash: Hash)
    ensures AcceptManifest(rows, snapshot, hash).Ok? <==> AllFit(rows, snapshot, hash) && Ascending(PathsOf(rows))
    ensures AcceptManifest(rows, snapshot, hash).Ok? ==>
              && AcceptManifest(rows, snapshot, hash).value.paths == PathsOf(rows)
              && Tabulates(AcceptManifest(rows, snapshot, hash).value.sources, rows)
  {
    hide AllFit, AcceptRows, Tabulates;
    RowsStep(Accepted([], map[]), rows, snapshot, hash);
    assert [] + PathsOf(rows) == PathsOf(rows);
    var paths := PathsOf(rows);
    if Ascending(paths) { AscendingUnique(paths, Sorted(Elements(paths))); }
    if AllFit(rows, snapshot, hash) && Ascending(paths) { TableStep(Accepted([], map[]), rows, snapshot, hash); }
  }

  // ----- what the core identity covers

  /** The C sources and headers that a Tree-sitter pack or SCIP selects are core sources. */
  lemma CoreCoversSelections(name: string, directory: string, path: string)
    requires EndsWith(path, ".c") || EndsWith(path, ".h")
    ensures InPack(name, directory, path) || InScip(path) ==> InCore(path)
  {
    Prefixes(path, directory);
    ListedPrefixes(path);
    FolderPrefixes(path);
    hide SHARED_MODEL, SCANNER_FILES, StartsWith, EndsWith;
  }

  lemma FolderPrefixes(path: string)
    ensures StartsWith(path, "src/evidence/syntax/tree_sitter/ecmascript/") ==> StartsWith(path, "src/")
    ensures StartsWith(path, "src/evidence/syntax/tree_sitter/typescript/") ==> StartsWith(path, "src/")
    ensures StartsWith(path, "src/evidence/python/") || StartsWith(path, "src/evidence/semantic/scip/") ==> StartsWith(path, "src/")
    ensures StartsWith(path, "vendor/tree-sitter/lib/") ==> StartsWith(path, "vendor/")
  {
    UnderSource("src/evidence/syntax/tree_sitter/ecmascript/", path);
    UnderSource("src/evidence/syntax/tree_sitter/typescript/", path);
    UnderSource("src/evidence/python/", path);
    UnderSource("src/evidence/semantic/scip/", path);
    assert "vendor/" <= "vendor/tree-sitter/lib/";
  }

  lemma UnderSource(folder: string, path: string)
    requires |folder| >= 4 && folder[0] == 's' && folder[1] == 'r' && folder[2] == 'c' && folder[3] == '/'
    ensures StartsWith(folder, "src/") && (StartsWith(path, folder) ==> StartsWith(path, "src/"))
  {
    assert folder[..4] == "src/";
  }

  lemma ListedPrefixes(path: string)
    ensures path in SHARED_MODEL || path in SCANNER_FILES ==> StartsWith(path, "src/")
  {
    hide StartsWith;
    UnderSource("src/evidence/fact_builder.c", path);
    UnderSource("src/evidence/fact_builder.h", path);
    UnderSource("src/base/model.c", path);
    UnderSource("src/base/model.h", path);
    UnderSource("src/evidence/syntax/tree_sitter/scanner.c", path);
    UnderSource("src/evidence/syntax/tree_sitter/scanner.h", path);
    UnderSource("src/evidence/syntax/tree_sitter/tree_sitter_allocator.c", path);
    UnderSource("src/evidence/syntax/tree_sitter/tree_sitter_allocator.h", path);
  }

  /** Paths under the selected directories lie under `src/` or `vendor/`. */
  lemma Prefixes(path: string, directory: string)
    ensures StartsWith(path, "src/evidence/syntax/tree_sitter/" + directory + "/") ==> StartsWith(path, "src/")
    ensures StartsWith(path, "vendor/tree-sitter-" + directory + "/") ==> StartsWith(path, "vendor/")
  {
    assert "src/" <= "src/evidence/syntax/tree_sitter/" <= "src/evidence/syntax/tree_sitter/" + directory + "/";
    assert "vendor/" <= "vendor/tree-sitter-" <= "vendor/tree-sitter-" + directory + "/";
  }

  predicate IsModelFile(path: string) {
    path == "src/evidence/fact_builder.c" || path == "src/evidence/fact_builder.h"
    || path == "src/base/model.c" || path == "src/base/model.h"
  }

  predicate IsScannerFile(path: string) {
    path == "src/evidence/syntax/tree_sitter/scanner.c" || path == "src/evidence/syntax/tree_sitter/scanner.h"
    || path == "src/evidence/syntax/tree_sitter/tree_sitter_allocator.c"
    || path == "src/evidence/syntax/tree_sitter/tree_sitter_allocator.h"
  }

  /** The identities an edit of a file reaches: the shared model files reach the core, SCIP and every pack; scanner, allocator
      and the Tree-sitter library every pack; the ECMAScript, TypeScript and Python sources the packs built on them; and
      nothing else reaches SCIP. */
  lemma EditsReach(name: string, directory: string, path: string)
    ensures IsModelFile(path) ==> InCore(path) && InScip(path) && InPack(name, directory, path)
    ensures IsScannerFile(path) ==> InCore(path) && InPack(name, directory, path)
    ensures StartsWith(path, "vendor/tree-sitter/lib/") ==> InPack(name, directory, path)
    ensures StartsWith(path, "src/evidence/syntax/tree_sitter/ecmascript/") ==>
              InPack("JAVASCRIPT", directory, path) && InPack("TYPESCRIPT", directory, path) && InPack("TSX", directory, path)
    ensures StartsWith(path, "src/evidence/syntax/tree_sitter/typescript/") ==> InPack("TSX", directory, path)
    ensures StartsWith(path, "src/evidence/python/") && (EndsWith(path, ".c") || EndsWith(path, ".h")) ==>
              InPack("PYTHON", directory, path)
    ensures StartsWith(path, "src/evidence/syntax/tree_sitter/" + directory + "/") ==> InPack(name, directory, path)
    ensures InScip(path) <==> StartsWith(path, "src/evidence/semantic/scip/") || IsModelFile(path)
  {
    hide StartsWith;
    SharedAreSources(path);
    ListedPrefixes(path);
    hide EndsWith;
  }

  lemma SharedAreSources(path: string)
    ensures IsModelFile(path) <==> path in SHARED_MODEL
    ensures IsScannerFile(path) <==> path in SCANNER_FILES
    ensures IsModelFile(path) || IsScannerFile(path) ==> IsSource(path)
  {
    if IsModelFile(path) || IsScannerFile(path) {
      var n := |path| - 2;
      assert path[n..] == ".c" || path[n..] == ".h";
    }
  }

  /** Two states of one checkout with the same core material have the same material for every selection of core sources,
      so for each pack and for SCIP as far as they select C sources. */
  lemma CoreIdentityCovers(a: Repository, b: Repository, core: seq<string>, chosen: seq<string>, hash: Hash, n: nat)
    requires FixedLength(hash, n) && CollisionFree(hash) && a.vendor == b.vendor
    requires Listed(a, core) && Listed(b, core) && forall p | p in chosen :: p in core
    requires RepositoryMaterial(a, core, hash) == RepositoryMaterial(b, core, hash)
    ensures RepositoryMaterial(a, chosen, hash) == RepositoryMaterial(b, chosen, hash)
  {
    MaterialDeterminesSources(a, core, b, core, hash, n);
    forall id | Selects(a, chosen, id)
      ensures Selects(a, core, id)
    {
      var p :| p in chosen && Identifies(a, p, id);
    }
    forall id
      ensures Selects(a, chosen, id) <==> Selects(b, chosen, id)
    {
      SameVendor(a, b, chosen, id);
    }
    hide RepositoryMaterial;
    MaterialDeterminesSources(a, chosen, b, chosen, hash, n);
  }

  lemma SameVendor(a: Repository, b: Repository, order: seq<string>, id: string)
    requires a.vendor == b.vendor
    ensures Selects(a, order, id) <==> Selects(b, order, id)
  {
    if Selects(a, order, id) {
      var p :| p in order && Identifies(a, p, id);
      assert Identifies(b, p, id);
    }
    if Selects(b, order, id) {
      var p :| p in order && Identifies(b, p, id);
      assert Identifies(a, p, id);
    }
  }
}
