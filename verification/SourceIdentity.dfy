/** The implementation identity computed twice: over the repository by the snapshot writer, and over the packaged
    snapshot by the Python build. Both join, for a selection of files, their repository identities and content digests.

    `hash` stands for the hexadecimal SHA-256, `lines` for the stripped non-empty lines of a text. */
module SourceIdentity {
  import opened Prelude
  import opened Ordering
  import opened Dedup
  import opened PosixPath

  type Hash = Bytes -> string

  const LEXICAL_IDENTITY := "src/evidence/lexical/provider_identity.sources"

  /** A repository: its files, and the upstream path behind each vendored snapshot path. */
  datatype Repository = Repository(files: map<string, Bytes>, vendor: map<string, string>)

  datatype Entry = Regular(data: Bytes) | Linked(data: Bytes)

  type Snapshot = map<string, Entry>

  /** A manifest row as read; `None` where the document has no usable string. */
  datatype Row = Row(path: Option<string>, source: Option<string>, size: int, sha256: string)

  datatype BuildError = InvalidEntry | UnsafePath | UnsafeSource | DiffersFromManifest | NotSortedUnique | InvalidLexical

  // ----- which files belong to an identity

  predicate IsSource(path: string) {
    EndsWith(path, ".c") || EndsWith(path, ".h")
  }

  predicate InCore(path: string) {
    (StartsWith(path, "include/") || StartsWith(path, "src/") || StartsWith(path, "vendor/")) && IsSource(path)
  }

  const SHARED_MODEL := {"src/evidence/fact_builder.c", "src/evidence/fact_builder.h", "src/base/model.c",
                         "src/base/model.h"}

  const SCANNER_FILES := {"src/evidence/syntax/tree_sitter/scanner.c", "src/evidence/syntax/tree_sitter/scanner.h",
                          "src/evidence/syntax/tree_sitter/tree_sitter_allocator.c",
                          "src/evidence/syntax/tree_sitter/tree_sitter_allocator.h"}

  predicate InTreeSitterCommon(path: string) {
    path in SCANNER_FILES || path in SHARED_MODEL || StartsWith(path, "vendor/tree-sitter/lib/")
  }

  predicate InPythonSyntax(path: string) {
    StartsWith(path, "src/evidence/python/") && IsSource(path)
  }

  predicate InPackDirectory(directory: string, path: string) {
    StartsWith(path, "src/evidence/syntax/tree_sitter/" + directory + "/")
    || (StartsWith(path, "vendor/tree-sitter-" + directory + "/") && IsSource(path))
  }

  predicate InPack(name: string, directory: string, path: string) {
    || InTreeSitterCommon(path)
    || InPackDirectory(directory, path)
    || (name in {"JAVASCRIPT", "TYPESCRIPT", "TSX"} && StartsWith(path, "src/evidence/syntax/tree_sitter/ecmascript/"))
    || (name == "TSX" && StartsWith(path, "src/evidence/syntax/tree_sitter/typescript/"))
    || (name == "PYTHON" && InPythonSyntax(path))
  }

  predicate InScip(path: string) {
    StartsWith(path, "src/evidence/semantic/scip/") || path in SHARED_MODEL
  }

  function Selected(paths: seq<string>, chosen: string -> bool): set<string> {
    set p | p in paths && chosen(p)
  }

  /** The pack's set, grown by successive updates. */
  method PackPaths(paths: seq<string>, name: string, directory: string) returns (pack: set<string>)
    ensures pack == Selected(paths, p => InPack(name, directory, p))
  {
    pack := set p | p in paths && InTreeSitterCommon(p);
    pack := pack + set p | p in paths && InPackDirectory(directory, p);
    if name in {"JAVASCRIPT", "TYPESCRIPT", "TSX"} {
      pack := pack + set p | p in paths && StartsWith(p, "src/evidence/syntax/tree_sitter/ecmascript/");
    }
    if name == "TSX" {
      pack := pack + set p | p in paths && StartsWith(p, "src/evidence/syntax/tree_sitter/typescript/");
    }
    if name == "PYTHON" {
      pack := pack + set p | p in paths && InPythonSyntax(p);
    }
  }

  // ----- canonical paths and material

  /** `{identity(p): p for p in order}`: among aliases the last one visited stays. */
  function ByIdentity(order: seq<string>, identity: string -> string): map<string, string> {
    if order == [] then map[] else
      var last := order[|order| - 1];
      ByIdentity(order[..|order| - 1], identity)[identity(last) := last]
  }

  /** One line of material per identity, in identity order. */
  function Lines(ids: seq<string>, digestOf: string -> string): string {
    if ids == [] then "" else ids[0] + ":" + digestOf(ids[0]) + "\n" + Lines(ids[1..], digestOf)
  }

  /** The material over the canonical paths of a selection visited in some order. */
  function Material(order: seq<string>, identity: string -> string, digest: string -> string): string {
    var chosen := ByIdentity(order, identity);
    Lines(Sorted(chosen.Keys), id => if id in chosen then digest(chosen[id]) else "")
  }

  // ----- over the repository

  function IdentityOf(repository: Repository, path: string): string {
    if path in repository.vendor then repository.vendor[path] else path
  }

  function RepositoryDigest(repository: Repository, path: string, hash: Hash): string {
    var id := IdentityOf(repository, path);
    if id in repository.files then hash(repository.files[id]) else ""
  }

  function RepositoryMaterial(repository: Repository, order: seq<string>, hash: Hash): string {
    Material(order, p => IdentityOf(repository, p), p => RepositoryDigest(repository, p, hash))
  }

  /** The inventory of a package: everything common and the package's own binding, sorted. */
  function RepositoryFiles(common: set<string>, binding: string): seq<string> {
    Sorted(common + {binding})
  }

  /** The manifest row the snapshot writer records for a path. */
  function RowFor(repository: Repository, path: string, hash: Hash): Row {
    var id := IdentityOf(repository, path);
    Row(Some(path), Some(id), if id in repository.files then |repository.files[id]| else 0,
        RepositoryDigest(repository, path, hash))
  }

  function RowsFor(repository: Repository, paths: seq<string>, hash: Hash): (r: seq<Row>)
    ensures |r| == |paths| && forall i | 0 <= i < |r| :: r[i] == RowFor(repository, paths[i], hash)
  {
    seq(|paths|, i requires 0 <= i < |paths| => RowFor(repository, paths[i], hash))
  }

  // ----- over the snapshot

  /** What the Python build keeps of an accepted manifest. */
  datatype Accepted = Accepted(paths: seq<string>, sources: map<string, string>)

  function AcceptRow(done: Accepted, row: Row, snapshot: Snapshot, hash: Hash): Result<Accepted, BuildError> {
    if row.path.None? then Err(InvalidEntry) else
      var path := row.path.value;
      var source := if row.source.Some? then row.source.value else path;
      if IsAbsolute(path) || ".." in Components(path) then Err(BuildError.UnsafePath)
      else if IsAbsolute(source) || ".." in Components(source) then Err(UnsafeSource)
      else
        var relative := AsPosix(path);
        if relative !in snapshot || !snapshot[relative].Regular? || |snapshot[relative].data| != row.size
           || hash(snapshot[relative].data) != row.sha256
        then Err(DiffersFromManifest)
        else Ok(Accepted(done.paths + [relative], done.sources[relative := AsPosix(source)]))
  }

  function AcceptRows(done: Accepted, rows: seq<Row>, snapshot: Snapshot, hash: Hash): Result<Accepted, BuildError>
    decreases |rows|
  {
    if rows == [] then Ok(done) else
      var next :- AcceptRow(done, rows[0], snapshot, hash);
      AcceptRows(next, rows[1..], snapshot, hash)
  }

  function AcceptManifest(rows: seq<Row>, snapshot: Snapshot, hash: Hash): Result<Accepted, BuildError> {
    var all :- AcceptRows(Accepted([], map[]), rows, snapshot, hash);
    if all.paths != Sorted(Elements(all.paths)) then Err(NotSortedUnique) else Ok(all)
  }

  method ValidateManifest(rows: seq<Row>, snapshot: Snapshot, hash: Hash) returns (r: Result<Accepted, BuildError>)
    ensures r == AcceptManifest(rows, snapshot, hash)
  {
    var paths: seq<string>, sources: map<string, string> := [], map[];
    assert rows[0..] == rows;
    for i := 0 to |rows|
      invariant AcceptRows(Accepted(paths, sources), rows[i..], snapshot, hash)
                == AcceptRows(Accepted([], map[]), rows, snapshot, hash)
    {
      assert rows[i..][1..] == rows[i + 1..];
      var next := AcceptRow(Accepted(paths, sources), rows[i], snapshot, hash);
      if next.Err? {
        return Err(next.error);
      }
      paths, sources := next.value.paths, next.value.sources;
    }
    if paths != Sorted(Elements(paths)) {
      return Err(NotSortedUnique);
    }
    return Ok(Accepted(paths, sources));
  }

  function SnapshotDigest(snapshot: Snapshot, path: string, hash: Hash): string {
    if path in snapshot then hash(snapshot[path].data) else ""
  }

  function SourceOf(accepted: Accepted, path: string): string {
    if path in accepted.sources then accepted.sources[path] else ""
  }

  function SnapshotMaterial(accepted: Accepted, snapshot: Snapshot, order: seq<string>, hash: Hash): string {
    Material(order, p => SourceOf(accepted, p), p => SnapshotDigest(snapshot, p, hash))
  }

  // ----- lexical providers

  function Digests(paths: seq<string>, digest: string -> string): string {
    if paths == [] then "" else digest(paths[0]) + Digests(paths[1..], digest)
  }

  function Filter(paths: seq<string>, keep: string -> bool): (r: seq<string>)
    ensures forall p | p in r :: p in paths
  {
    if paths == [] then []
    else if keep(paths[0]) then [paths[0]] + Filter(paths[1..], keep)
    else Filter(paths[1..], keep)
  }

  function ScannerPath(directory: string, name: string): string {
    "src/evidence/lexical/" + directory + "/" + name
  }

  /** The material of one lexical provider, or the refusal of its shared source list. */
  function LexicalMaterial(paths: seq<string>, shared: seq<string>, language: string, directory: string,
                           digest: string -> string): Result<string, BuildError>
  {
    if Distinct(shared) != shared || exists p | p in shared :: p !in paths then Err(InvalidLexical)
    else
      Ok(Digests(shared, digest) + digest(ScannerPath(directory, "scanner.c")) + digest(ScannerPath(directory, "scanner.h"))
         + if language == "PYTHON" then Digests(Filter(paths, p => InPythonSyntax(p)), digest) else "")
  }

  function RepositoryLexical(repository: Repository, paths: seq<string>, language: string, directory: string,
                             lines: Bytes -> seq<string>, hash: Hash): Result<string, BuildError>
    requires LEXICAL_IDENTITY in repository.files
  {
    LexicalMaterial(paths, lines(repository.files[LEXICAL_IDENTITY]), language, directory,
                    p => RepositoryDigest(repository, p, hash))
  }

  function SnapshotLexical(accepted: Accepted, snapshot: Snapshot, language: string, directory: string,
                           lines: Bytes -> seq<string>, hash: Hash): Result<string, BuildError>
    requires LEXICAL_IDENTITY in snapshot
  {
    LexicalMaterial(accepted.paths, lines(snapshot[LEXICAL_IDENTITY].data), language, directory,
                    p => SnapshotDigest(snapshot, p, hash))
  }
}
