/** The two computations of the implementation identity agree. */
module SameIdentity {
  import opened Prelude
  import opened Ordering
  import opened PosixPath
  import opened SourceIdentity

  // ----- order and aliases do not matter

  function Identities(order: seq<string>, identity: string -> string): set<string> {
    set p | p in order :: identity(p)
  }

  lemma {:induction false} ByIdentityKeys(order: seq<string>, identity: string -> string)
    ensures ByIdentity(order, identity).Keys == Identities(order, identity)
    ensures forall id | id in ByIdentity(order, identity) ::
              ByIdentity(order, identity)[id] in order && identity(ByIdentity(order, identity)[id]) == id
  {
    if order != [] {
      var init, last := order[..|order| - 1], order[|order| - 1];
      ByIdentityKeys(init, identity);
      assert order == init + [last];
      assert Identities(order, identity) == Identities(init, identity) + {identity(last)};
    }
  }

  lemma {:induction false} LinesAgree(ids: seq<string>, a: string -> string, b: string -> string)
    requires forall id | id in ids :: a(id) == b(id)
    ensures Lines(ids, a) == Lines(ids, b)
  {
    if ids != [] {
      assert ids[0] in ids && forall id | id in ids[1..] :: id in ids;
      LinesAgree(ids[1..], a, b);
    }
  }

  /** When a path's digest depends on its identity only, the material depends on the set of identities only: neither
      the order a set is visited in nor the alias that survives shows. */
  lemma MaterialByIdentity(order: seq<string>, identity: string -> string, digest: string -> string, digestOf: string -> string)
    requires forall p | p in order :: digest(p) == digestOf(identity(p))
    ensures Material(order, identity, digest) == Lines(Sorted(Identities(order, identity)), digestOf)
  {
    ByIdentityKeys(order, identity);
    var chosen := ByIdentity(order, identity);
    var ids := Sorted(chosen.Keys);
    forall id | id in ids
      ensures id in chosen && digest(chosen[id]) == digestOf(id)
    {
      assert id in Elements(ids);
    }
    LinesAgree(ids, id => if id in chosen then digest(chosen[id]) else "", digestOf);
  }

  // ----- what an accepted manifest says

  /** Paths and identities in the form the snapshot writer produces: relative, normalised, nothing outside. */
  ghost predicate CanonicalInventory(repository: Repository, paths: seq<string>) {
    && Ascending(paths)
    && forall p | p in paths ::
         && AsPosix(p) == p
         && AsPosix(IdentityOf(repository, p)) == IdentityOf(repository, p)
         && IdentityOf(repository, p) in repository.files
  }

  /** The accepted table mirrors the repository on the first `n` paths. */
  ghost predicate Mirrors(accepted: Accepted, repository: Repository, paths: seq<string>, snapshot: Snapshot, hash: Hash) {
    && accepted.paths == paths
    && forall p | p in paths ::
         && p in snapshot && SnapshotDigest(snapshot, p, hash) == RepositoryDigest(repository, p, hash)
         && SourceOf(accepted, p) == IdentityOf(repository, p)
  }

  lemma MirrorsStep(done: Accepted, repository: Repository, before: seq<string>, path: string, snapshot: Snapshot, hash: Hash)
    requires Mirrors(done, repository, before, snapshot, hash)
    requires AsPosix(path) == path && AsPosix(IdentityOf(repository, path)) == IdentityOf(repository, path)
    requires AcceptRow(done, RowFor(repository, path, hash), snapshot, hash).Ok?
    ensures Mirrors(AcceptRow(done, RowFor(repository, path, hash), snapshot, hash).value, repository, before + [path],
                    snapshot, hash)
  {
    hide AsPosix, Components, IdentityOf;
  }

  lemma {:induction false} AcceptedMirrors(done: Accepted, repository: Repository, before: seq<string>, paths: seq<string>,
                                           snapshot: Snapshot, hash: Hash)
    requires Mirrors(done, repository, before, snapshot, hash)
    requires forall p | p in paths ::
               AsPosix(p) == p && AsPosix(IdentityOf(repository, p)) == IdentityOf(repository, p)
    requires AcceptRows(done, RowsFor(repository, paths, hash), snapshot, hash).Ok?
    ensures Mirrors(AcceptRows(done, RowsFor(repository, paths, hash), snapshot, hash).value, repository, before + paths,
                    snapshot, hash)
    decreases |paths|
  {
    hide AsPosix, IdentityOf, RowFor, AcceptRow, Mirrors;
    if paths == [] {
      assert before + paths == before;
    } else {
      var rows := RowsFor(repository, paths, hash);
      assert rows[1..] == RowsFor(repository, paths[1..], hash);
      assert forall p | p in paths[1..] :: p in paths;
      MirrorsStep(done, repository, before, paths[0], snapshot, hash);
      AcceptedMirrors(AcceptRow(done, rows[0], snapshot, hash).value, repository, before + [paths[0]], paths[1..],
                      snapshot, hash);
      assert before + [paths[0]] + paths[1..] == before + paths;
    }
  }

  lemma AcceptedManifestMirrors(repository: Repository, paths: seq<string>, snapshot: Snapshot, hash: Hash)
    requires CanonicalInventory(repository, paths)
    requires AcceptManifest(RowsFor(repository, paths, hash), snapshot, hash).Ok?
    ensures Mirrors(AcceptManifest(RowsFor(repository, paths, hash), snapshot, hash).value, repository, paths, snapshot, hash)
  {
    hide AsPosix, IdentityOf;
    AcceptedMirrors(Accepted([], map[]), repository, [], paths, snapshot, hash);
    assert [] + paths == paths;
  }

  /** The snapshot holds the repository bytes behind `path`, and both names stay inside their trees. */
  ghost predicate Copied(repository: Repository, path: string, snapshot: Snapshot) {
    && AsPosix(path) == path && IdentityOf(repository, path) in repository.files
    && !IsAbsolute(path) && ".." !in Components(path)
    && !IsAbsolute(IdentityOf(repository, path)) && ".." !in Components(IdentityOf(repository, path))
    && path in snapshot && snapshot[path] == Regular(repository.files[IdentityOf(repository, path)])
  }

  /** Copying each path's repository bytes gives a snapshot the build accepts, so the agreement below is not idle. */
  lemma CopyIsAccepted(repository: Repository, paths: seq<string>, snapshot: Snapshot, hash: Hash)
    requires CanonicalInventory(repository, paths)
    requires forall p | p in paths :: Copied(repository, p, snapshot)
    ensures AcceptManifest(RowsFor(repository, paths, hash), snapshot, hash).Ok?
  {
    hide AsPosix, IdentityOf, Components, Copied;
    CopiesAccepted(Accepted([], map[]), repository, paths, snapshot, hash);
    assert [] + paths == paths;
    AscendingUnique(paths, Sorted(Elements(paths)));
  }

  lemma CopyAccepted(done: Accepted, repository: Repository, path: string, snapshot: Snapshot, hash: Hash)
    requires Copied(repository, path, snapshot)
    ensures AcceptRow(done, RowFor(repository, path, hash), snapshot, hash).Ok?
    ensures AcceptRow(done, RowFor(repository, path, hash), snapshot, hash).value.paths == done.paths + [path]
  {
    hide AsPosix, IdentityOf, Components;
  }

  lemma {:induction false} CopiesAccepted(done: Accepted, repository: Repository, paths: seq<string>, snapshot: Snapshot, hash: Hash)
    requires forall p | p in paths :: Copied(repository, p, snapshot)
    ensures AcceptRows(done, RowsFor(repository, paths, hash), snapshot, hash).Ok?
    ensures AcceptRows(done, RowsFor(repository, paths, hash), snapshot, hash).value.paths == done.paths + paths
    decreases |paths|
  {
    hide Copied, AcceptRow, RowFor;
    if paths != [] {
      var rows := RowsFor(repository, paths, hash);
      assert rows[1..] == RowsFor(repository, paths[1..], hash);
      assert paths[0] in paths && forall p | p in paths[1..] :: p in paths;
      CopyAccepted(done, repository, paths[0], snapshot, hash);
      CopiesAccepted(AcceptRow(done, rows[0], snapshot, hash).value, repository, paths[1..], snapshot, hash);
      assert done.paths + [paths[0]] + paths[1..] == done.paths + paths;
    }
  }

  // ----- the materials agree

  /** The digest of an identity in the repository. */
  ghost function IdentityDigest(repository: Repository, id: string, hash: Hash): string {
    if id in repository.files then hash(repository.files[id]) else ""
  }

  lemma RepositoryMaterialByIdentity(repository: Repository, order: seq<string>, hash: Hash)
    ensures RepositoryMaterial(repository, order, hash)
            == Lines(Sorted(Identities(order, p => IdentityOf(repository, p))), id => IdentityDigest(repository, id, hash))
  {
    hide IdentityOf;
    MaterialByIdentity(order, p => IdentityOf(repository, p), p => RepositoryDigest(repository, p, hash),
                       id => IdentityDigest(repository, id, hash));
  }

  lemma SnapshotMaterialByIdentity(accepted: Accepted, repository: Repository, snapshot: Snapshot, order: seq<string>, hash: Hash)
    requires Mirrors(accepted, repository, accepted.paths, snapshot, hash)
    requires forall p | p in order :: p in accepted.paths
    ensures SnapshotMaterial(accepted, snapshot, order, hash)
            == Lines(Sorted(Identities(order, p => SourceOf(accepted, p))), id => IdentityDigest(repository, id, hash))
  {
    hide IdentityOf;
    MaterialByIdentity(order, p => SourceOf(accepted, p), p => SnapshotDigest(snapshot, p, hash),
                       id => IdentityDigest(repository, id, hash));
  }

  lemma SameIdentities(a: seq<string>, b: seq<string>, f: string -> string, g: string -> string)
    requires forall p :: p in a <==> p in b
    requires forall p | p in a :: f(p) == g(p)
    ensures Identities(a, f) == Identities(b, g)
  {}

  lemma SameMembers(a: seq<string>, b: seq<string>)
    requires Elements(a) == Elements(b)
    ensures forall p :: p in a <==> p in b
  {
    forall p
      ensures p in a <==> p in b
    {
      assert p in a <==> p in Elements(a);
      assert p in b <==> p in Elements(b);
    }
  }

  /** For any selection of the inventory, visited in any order on either side, the writer's material over the repository
      equals the build's material over any snapshot its manifest check accepts. */
  lemma SameMaterial(repository: Repository, paths: seq<string>, snapshot: Snapshot, hash: Hash,
                     writerOrder: seq<string>, buildOrder: seq<string>)
    requires CanonicalInventory(repository, paths)
    requires AcceptManifest(RowsFor(repository, paths, hash), snapshot, hash).Ok?
    requires Elements(writerOrder) == Elements(buildOrder) <= Elements(paths)
    ensures RepositoryMaterial(repository, writerOrder, hash)
            == SnapshotMaterial(AcceptManifest(RowsFor(repository, paths, hash), snapshot, hash).value, snapshot,
                                buildOrder, hash)
  {
    hide AsPosix, IdentityOf, AcceptManifest, RepositoryMaterial, SnapshotMaterial;
    var accepted := AcceptManifest(RowsFor(repository, paths, hash), snapshot, hash).value;
    AcceptedManifestMirrors(repository, paths, snapshot, hash);
    SameMembers(writerOrder, buildOrder);
    forall p | p in buildOrder
      ensures p in paths
    {
      assert p in Elements(buildOrder);
    }
    RepositoryMaterialByIdentity(repository, writerOrder, hash);
    SnapshotMaterialByIdentity(accepted, repository, snapshot, buildOrder, hash);
    SameIdentities(writerOrder, buildOrder, p => IdentityOf(repository, p), p => SourceOf(accepted, p));
  }

  /** `order` visits exactly the chosen paths of the inventory, each at least once. */
  predicate Visits(order: seq<string>, paths: seq<string>, chosen: string -> bool) {
    Elements(order) == Selected(paths, chosen)
  }

  /** One selection of files, visited in any order on either side, has the same material on both. */
  lemma SameIdentityFromTwoBuilds(repository: Repository, paths: seq<string>, snapshot: Snapshot, hash: Hash,
                                  chosen: string -> bool, writerOrder: seq<string>, buildOrder: seq<string>)
    requires CanonicalInventory(repository, paths)
    requires AcceptManifest(RowsFor(repository, paths, hash), snapshot, hash).Ok?
    requires Visits(writerOrder, paths, chosen)
    requires Visits(buildOrder, AcceptManifest(RowsFor(repository, paths, hash), snapshot, hash).value.paths, chosen)
    ensures RepositoryMaterial(repository, writerOrder, hash)
            == SnapshotMaterial(AcceptManifest(RowsFor(repository, paths, hash), snapshot, hash).value, snapshot,
                                buildOrder, hash)
  {
    hide AsPosix, IdentityOf;
    AcceptedManifestMirrors(repository, paths, snapshot, hash);
    SameMaterial(repository, paths, snapshot, hash, writerOrder, buildOrder);
  }

  /** In particular the core, every Tree-sitter pack and SCIP. */
  lemma NamedIdentitiesAgree(repository: Repository, paths: seq<string>, snapshot: Snapshot, hash: Hash, name: string,
                             directory: string)
    requires CanonicalInventory(repository, paths)
    requires AcceptManifest(RowsFor(repository, paths, hash), snapshot, hash).Ok?
    ensures var accepted := AcceptManifest(RowsFor(repository, paths, hash), snapshot, hash).value;
            && Agree(repository, paths, accepted, snapshot, hash, p => InCore(p))
            && Agree(repository, paths, accepted, snapshot, hash, p => InScip(p))
            && Agree(repository, paths, accepted, snapshot, hash, p => InPack(name, directory, p))
  {
    var accepted := AcceptManifest(RowsFor(repository, paths, hash), snapshot, hash).value;
    AgreeOn(repository, paths, snapshot, hash, p => InCore(p));
    AgreeOn(repository, paths, snapshot, hash, p => InScip(p));
    AgreeOn(repository, paths, snapshot, hash, p => InPack(name, directory, p));
  }

  /** Whatever the visiting orders, both sides get the same material for a selection. */
  ghost predicate Agree(repository: Repository, paths: seq<string>, accepted: Accepted, snapshot: Snapshot, hash: Hash,
                        chosen: string -> bool)
  {
    forall writerOrder: seq<string>, buildOrder: seq<string>
      | Visits(writerOrder, paths, chosen) && Visits(buildOrder, accepted.paths, chosen) ::
      RepositoryMaterial(repository, writerOrder, hash) == SnapshotMaterial(accepted, snapshot, buildOrder, hash)
  }

  lemma AgreeOn(repository: Repository, paths: seq<string>, snapshot: Snapshot, hash: Hash, chosen: string -> bool)
    requires CanonicalInventory(repository, paths)
    requires AcceptManifest(RowsFor(repository, paths, hash), snapshot, hash).Ok?
    ensures Agree(repository, paths, AcceptManifest(RowsFor(repository, paths, hash), snapshot, hash).value, snapshot, hash, chosen)
  {
    hide RepositoryMaterial, SnapshotMaterial, AcceptManifest;
    var accepted := AcceptManifest(RowsFor(repository, paths, hash), snapshot, hash).value;
    forall writerOrder: seq<string>, buildOrder: seq<string>
      | Visits(writerOrder, paths, chosen) && Visits(buildOrder, accepted.paths, chosen)
      ensures RepositoryMaterial(repository, writerOrder, hash) == SnapshotMaterial(accepted, snapshot, buildOrder, hash)
    {
      SameIdentityFromTwoBuilds(repository, paths, snapshot, hash, chosen, writerOrder, buildOrder);
    }
  }

  /** The core identity does not depend on which binding the package ships. */
  lemma CoreIgnoresBinding(repository: Repository, common: set<string>, hash: Hash, pythonOrder: seq<string>, nodeOrder: seq<string>)
    ensures Visits(pythonOrder, RepositoryFiles(common, "bindings/python.c"), p => InCore(p))
            && Visits(nodeOrder, RepositoryFiles(common, "bindings/node.c"), p => InCore(p)) ==>
              RepositoryMaterial(repository, pythonOrder, hash) == RepositoryMaterial(repository, nodeOrder, hash)
  {
    hide IdentityOf, RepositoryMaterial;
    BindingNotInCore("bindings/python.c");
    BindingNotInCore("bindings/node.c");
    var python, node := RepositoryFiles(common, "bindings/python.c"), RepositoryFiles(common, "bindings/node.c");
    assert Selected(python, p => InCore(p)) == Selected(node, p => InCore(p)) by {
      forall p | InCore(p)
        ensures p in python <==> p in node
      {
        assert p in python <==> p in Elements(python);
        assert p in node <==> p in Elements(node);
      }
    }
    if Elements(pythonOrder) == Elements(nodeOrder) {
      SameMembers(pythonOrder, nodeOrder);
      RepositoryMaterialByIdentity(repository, pythonOrder, hash);
      RepositoryMaterialByIdentity(repository, nodeOrder, hash);
      SameIdentities(pythonOrder, nodeOrder, p => IdentityOf(repository, p), p => IdentityOf(repository, p));
    }
  }

  lemma BindingNotInCore(path: string)
    requires |path| > 0 && path[0] == 'b'
    ensures !InCore(path)
  {
    assert "include/"[0] == 'i' && "src/"[0] == 's' && "vendor/"[0] == 'v';
  }

  // ----- lexical providers

  lemma {:induction false} DigestsAgree(paths: seq<string>, a: string -> string, b: string -> string)
    requires forall p | p in paths :: a(p) == b(p)
    ensures Digests(paths, a) == Digests(paths, b)
  {
    if paths != [] {
      assert paths[0] in paths && forall p | p in paths[1..] :: p in paths;
      DigestsAgree(paths[1..], a, b);
    }
  }

  lemma LexicalAgrees(paths: seq<string>, shared: seq<string>, language: string, directory: string,
                      a: string -> string, b: string -> string)
    requires forall p | p in paths :: a(p) == b(p)
    requires ScannerPath(directory, "scanner.c") in paths && ScannerPath(directory, "scanner.h") in paths
    ensures LexicalMaterial(paths, shared, language, directory, a) == LexicalMaterial(paths, shared, language, directory, b)
  {
    if forall p | p in shared :: p in paths {
      DigestsAgree(shared, a, b);
    }
    DigestsAgree(Filter(paths, p => InPythonSyntax(p)), a, b);
  }

  ghost predicate CollisionFree(hash: Hash) {
    forall a, b :: hash(a) == hash(b) ==> a == b
  }

  /** The lexical providers have the same material too. Their shared source list is itself read from the two trees, so
      here the digest must not collide on that file. */
  lemma SameLexicalIdentity(repository: Repository, paths: seq<string>, snapshot: Snapshot, hash: Hash,
                            language: string, directory: string, lines: Bytes -> seq<string>)
    requires CanonicalInventory(repository, paths) && CollisionFree(hash)
    requires AcceptManifest(RowsFor(repository, paths, hash), snapshot, hash).Ok?
    requires LEXICAL_IDENTITY in paths && LEXICAL_IDENTITY !in repository.vendor
    requires ScannerPath(directory, "scanner.c") in paths && ScannerPath(directory, "scanner.h") in paths
    ensures LEXICAL_IDENTITY in repository.files && LEXICAL_IDENTITY in snapshot
    ensures RepositoryLexical(repository, paths, language, directory, lines, hash)
            == SnapshotLexical(AcceptManifest(RowsFor(repository, paths, hash), snapshot, hash).value, snapshot,
                               language, directory, lines, hash)
  {
    hide AsPosix;
    AcceptedManifestMirrors(repository, paths, snapshot, hash);
    assert IdentityOf(repository, LEXICAL_IDENTITY) == LEXICAL_IDENTITY;
    assert RepositoryDigest(repository, LEXICAL_IDENTITY, hash) == SnapshotDigest(snapshot, LEXICAL_IDENTITY, hash);
    LexicalAgrees(paths, lines(repository.files[LEXICAL_IDENTITY]), language, directory,
                  p => RepositoryDigest(repository, p, hash), p => SnapshotDigest(snapshot, p, hash));
  }
}
