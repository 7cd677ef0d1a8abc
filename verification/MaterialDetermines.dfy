/** What the digest material says: it lists identities with content digests, and determines both. */
module MaterialDetermines {
  import opened Prelude
  import opened Ordering
  import opened SourceIdentity
  import opened SameIdentity
  import opened Dedup

  /** Digests of one length, as hexadecimal SHA-256 has. */
  ghost predicate FixedLength(hash: Hash, n: nat) {
    forall b :: |hash(b)| == n
  }

  ghost predicate NoColon(ids: seq<string>) {
    forall id | id in ids :: ':' !in id
  }

  // ----- the format of a line

  lemma {:induction false} LinesConcat(a: seq<string>, b: seq<string>, digestOf: string -> string)
    ensures Lines(a + b, digestOf) == Lines(a, digestOf) + Lines(b, digestOf)
  {
    if a == [] {
      assert a + b == b;
    } else {
      assert (a + b)[1..] == a[1..] + b;
      LinesConcat(a[1..], b, digestOf);
    }
  }

  /** The material of one identity is its name, a colon, its digest and a newline; the material of a list is that of its
      parts, joined in order. */
  lemma LineFormat(a: seq<string>, id: string, b: seq<string>, digestOf: string -> string)
    ensures Lines(a + [id] + b, digestOf) == Lines(a, digestOf) + (id + ":" + digestOf(id) + "\n") + Lines(b, digestOf)
    ensures Lines([], digestOf) == ""
  {
    LinesConcat(a + [id], b, digestOf);
    LinesConcat(a, [id], digestOf);
    assert [id][1..] == [];
    assert Lines([id], digestOf) == id + ":" + digestOf(id) + "\n";
  }

  // ----- reading a line back

  lemma NameEnds(a: string, x: string)
    requires ':' !in a
    ensures (a + ":" + x)[|a|] == ':' && forall k | 0 <= k < |a| :: (a + ":" + x)[k] != ':'
  {
    forall k | 0 <= k < |a|
      ensures (a + ":" + x)[k] != ':'
    {
      assert a[k] in a;
    }
  }

  /** A name without a colon ends at the first colon. */
  lemma SameName(a: string, x: string, b: string, y: string)
    requires ':' !in a && ':' !in b
    requires a + ":" + x == b + ":" + y
    ensures a == b && x == y
  {
    var s, t := a + ":" + x, b + ":" + y;
    NameEnds(a, x);
    NameEnds(b, y);
    assert |a| == |b|;
    assert a == s[..|a|] && b == t[..|b|];
    assert x == s[|a| + 1..] && y == t[|b| + 1..];
  }

  lemma FirstLine(id: string, digest: string, rest: string, id': string, digest': string, rest': string)
    requires ':' !in id && ':' !in id' && |digest| == |digest'|
    requires id + ":" + digest + "\n" + rest == id' + ":" + digest' + "\n" + rest'
    ensures id == id' && digest == digest' && rest == rest'
  {
    var x, y := digest + "\n" + rest, digest' + "\n" + rest';
    assert id + ":" + digest + "\n" + rest == id + ":" + x && id' + ":" + digest' + "\n" + rest' == id' + ":" + y;
    SameName(id, x, id', y);
    assert digest == x[..|digest|] && digest' == y[..|digest|];
    assert rest == x[|digest| + 1..] && rest' == y[|digest| + 1..];
  }

  /** Equal material lists equal identities with equal digests. */
  lemma {:induction false} LinesInjective(a: seq<string>, digestA: string -> string, b: seq<string>,
                                          digestB: string -> string, n: nat)
    requires NoColon(a) && NoColon(b)
    requires forall id | id in a :: |digestA(id)| == n
    requires forall id | id in b :: |digestB(id)| == n
    requires Lines(a, digestA) == Lines(b, digestB)
    ensures a == b && forall id | id in a :: digestA(id) == digestB(id)
  {
    if a != [] && b != [] {
      FirstLine(a[0], digestA(a[0]), Lines(a[1..], digestA), b[0], digestB(b[0]), Lines(b[1..], digestB));
      assert forall id | id in a[1..] :: id in a;
      assert forall id | id in b[1..] :: id in b;
      LinesInjective(a[1..], digestA, b[1..], digestB, n);
      assert a == [a[0]] + a[1..] && b == [b[0]] + b[1..];
    }
  }

  // ----- over two repositories

  /** The repository identity behind a path: its upstream path if it is vendored, otherwise the path itself. */
  ghost predicate Identifies(r: Repository, path: string, id: string) {
    id == if path in r.vendor then r.vendor[path] else path
  }

  /** Some path of the selection has this identity. */
  ghost predicate Selects(r: Repository, order: seq<string>, id: string) {
    exists p | p in order :: Identifies(r, p, id)
  }

  /** Every identity is the name of a repository file, without a colon. */
  ghost predicate Listed(r: Repository, order: seq<string>) {
    forall id | Selects(r, order, id) :: ':' !in id && id in r.files
  }

  /** The selections have the same identities, with the same bytes behind each. */
  ghost predicate SameSources(a: Repository, orderA: seq<string>, b: Repository, orderB: seq<string>) {
    && (forall id :: Selects(a, orderA, id) <==> Selects(b, orderB, id))
    && forall id | Selects(a, orderA, id) && id in a.files && id in b.files :: a.files[id] == b.files[id]
  }

  /** The material lists the identities of the selection, each once, in ascending order. */
  lemma MaterialLists(r: Repository, order: seq<string>, hash: Hash) returns (ids: seq<string>)
    ensures RepositoryMaterial(r, order, hash) == Lines(ids, id => IdentityDigest(r, id, hash))
    ensures Ascending(ids) && forall id :: id in ids <==> Selects(r, order, id)
  {
    var identity := p => IdentityOf(r, p);
    var found := Identities(order, identity);
    RepositoryMaterialByIdentity(r, order, hash);
    ids := Sorted(found);
    forall id
      ensures id in ids <==> Selects(r, order, id)
    {
      assert id in ids <==> id in Elements(ids);
      if Selects(r, order, id) {
        var p :| p in order && Identifies(r, p, id);
        assert identity(p) == id;
      }
    }
  }

  /** With collision-free digests of one length the material determines the sources, and depends on nothing else: two
      selections have the same material exactly when they have the same identities and the same bytes behind each,
      whatever the order they are visited in and whatever paths carry an identity. */
  lemma MaterialDeterminesSources(a: Repository, orderA: seq<string>, b: Repository, orderB: seq<string>, hash: Hash, n: nat)
    requires FixedLength(hash, n) && CollisionFree(hash) && Listed(a, orderA) && Listed(b, orderB)
    ensures RepositoryMaterial(a, orderA, hash) == RepositoryMaterial(b, orderB, hash) <==> SameSources(a, orderA, b, orderB)
  {
    var idsA := MaterialLists(a, orderA, hash);
    var idsB := MaterialLists(b, orderB, hash);
    hide Selects, RepositoryMaterial, Lines, Ascending;
    var digestA, digestB := id => IdentityDigest(a, id, hash), id => IdentityDigest(b, id, hash);
    if RepositoryMaterial(a, orderA, hash) == RepositoryMaterial(b, orderB, hash) {
      LinesInjective(idsA, digestA, idsB, digestB, n);
      forall id | Selects(a, orderA, id)
        ensures a.files[id] == b.files[id]
      {
        assert digestA(id) == digestB(id);
      }
    }
    if SameSources(a, orderA, b, orderB) {
      AscendingUnique(idsA, idsB);
      LinesAgree(idsA, digestA, digestB);
    }
  }

  // ----- lexical providers

  /** The files behind a lexical identity, in the order their digests are joined: the shared list, the scanner's source
      and header, and for Python the Python syntax sources. */
  ghost predicate LexicalFiles(paths: seq<string>, shared: seq<string>, language: string, directory: string, all: seq<string>) {
    exists python: seq<string> ::
      && all == shared + ["src/evidence/lexical/" + directory + "/scanner.c", "src/evidence/lexical/" + directory + "/scanner.h"]
                + python
      && if language == "PYTHON" then IsFiltered(paths, python) else python == []
  }

  /** The C sources and headers under `src/evidence/python/`, in order. */
  ghost predicate IsFiltered(paths: seq<string>, python: seq<string>) {
    if paths == [] then python == []
    else if StartsWith(paths[0], "src/evidence/python/") && (EndsWith(paths[0], ".c") || EndsWith(paths[0], ".h")) then
      python != [] && python[0] == paths[0] && IsFiltered(paths[1..], python[1..])
    else IsFiltered(paths[1..], python)
  }

  lemma {:induction false} FilterFilters(paths: seq<string>)
    ensures IsFiltered(paths, Filter(paths, p => InPythonSyntax(p)))
  {
    if paths != [] { FilterFilters(paths[1..]); }
  }

  /** Digests joined without separators. */
  lemma {:induction false} DigestsConcat(a: seq<string>, b: seq<string>, digest: string -> string)
    ensures Digests(a + b, digest) == Digests(a, digest) + Digests(b, digest)
  {
    if a == [] {
      assert a + b == b;
    } else {
      assert (a + b)[1..] == a[1..] + b;
      DigestsConcat(a[1..], b, digest);
    }
  }

  /** The material of a list of digests is the digests themselves, joined in order. */
  lemma DigestFormat(a: seq<string>, path: string, b: seq<string>, digest: string -> string)
    ensures Digests(a + [path] + b, digest) == Digests(a, digest) + digest(path) + Digests(b, digest)
    ensures Digests([], digest) == ""
  {
    DigestsConcat(a + [path], b, digest);
    DigestsConcat(a, [path], digest);
    assert [path][1..] == [];
    assert Digests([path], digest) == digest(path);
  }

  /** Equal joins of digests of one length have the same digests in the same places. */
  lemma {:induction false} DigestsInjective(a: seq<string>, digestA: string -> string, b: seq<string>,
                                            digestB: string -> string, n: nat)
    requires n > 0 && (forall p | p in a :: |digestA(p)| == n) && forall p | p in b :: |digestB(p)| == n
    requires Digests(a, digestA) == Digests(b, digestB)
    ensures |a| == |b| && forall k | 0 <= k < |a| :: digestA(a[k]) == digestB(b[k])
  {
    if a != [] && b != [] {
      assert a[0] in a && b[0] in b;
      var x, y := Digests(a[1..], digestA), Digests(b[1..], digestB);
      assert digestA(a[0]) == (digestA(a[0]) + x)[..n] && digestB(b[0]) == (digestB(b[0]) + y)[..n];
      assert x == (digestA(a[0]) + x)[n..] && y == (digestB(b[0]) + y)[n..];
      assert (forall p | p in a[1..] :: p in a) && forall p | p in b[1..] :: p in b;
      DigestsInjective(a[1..], digestA, b[1..], digestB, n);
      forall k | 0 <= k < |a|
        ensures digestA(a[k]) == digestB(b[k])
      {
        if k > 0 { assert a[k] == a[1..][k - 1] && b[k] == b[1..][k - 1]; }
      }
    }
  }

  lemma {:induction false} DigestsSame(a: seq<string>, digestA: string -> string, b: seq<string>, digestB: string -> string)
    requires |a| == |b| && forall k | 0 <= k < |a| :: digestA(a[k]) == digestB(b[k])
    ensures Digests(a, digestA) == Digests(b, digestB)
  {
    if a != [] {
      assert forall k | 0 <= k < |a| - 1 :: a[1..][k] == a[k + 1] && b[1..][k] == b[k + 1];
      DigestsSame(a[1..], digestA, b[1..], digestB);
    }
  }

  /** A lexical material is refused exactly when its shared list repeats a path or names one outside the inventory, and
      otherwise joins the digests of its files. */
  lemma LexicalMeans(paths: seq<string>, shared: seq<string>, language: string, directory: string, digest: string -> string)
    returns (all: seq<string>)
    ensures LexicalFiles(paths, shared, language, directory, all)
    ensures LexicalMaterial(paths, shared, language, directory, digest)
            == if NoRepeats(shared) && (forall p | p in shared :: p in paths) then Ok(Digests(all, digest)) else Err(InvalidLexical)
  {
    var c, h := "src/evidence/lexical/" + directory + "/scanner.c", "src/evidence/lexical/" + directory + "/scanner.h";
    var python := if language == "PYTHON" then Filter(paths, p => InPythonSyntax(p)) else [];
    all := shared + [c, h] + python;
    FilterFilters(paths);
    SharedDistinct(shared);
    LexicalJoins(shared, c, h, python, digest);
    ScannerNames(directory);
    assert python == [] ==> Digests(shared, digest) + digest(c) + digest(h) + "" == Digests(shared, digest) + digest(c) + digest(h);
    hide ScannerPath, Filter, IsFiltered, Digests, Distinct, NoRepeats;
  }

  lemma ScannerNames(directory: string)
    ensures ScannerPath(directory, "scanner.c") == "src/evidence/lexical/" + directory + "/scanner.c"
    ensures ScannerPath(directory, "scanner.h") == "src/evidence/lexical/" + directory + "/scanner.h"
  {
    var folder := "src/evidence/lexical/" + directory;
    assert "/" + "scanner.c" == "/scanner.c" && "/" + "scanner.h" == "/scanner.h";
    assert folder + "/" + "scanner.c" == folder + ("/" + "scanner.c");
    assert folder + "/" + "scanner.h" == folder + ("/" + "scanner.h");
  }

  lemma SharedDistinct(shared: seq<string>)
    ensures Distinct(shared) == shared <==> NoRepeats(shared)
  {
    DistinctFixed(shared);
  }

  lemma LexicalJoins(shared: seq<string>, c: string, h: string, python: seq<string>, digest: string -> string)
    ensures Digests(shared + [c, h] + python, digest)
            == Digests(shared, digest) + digest(c) + digest(h) + Digests(python, digest)
    ensures Digests([], digest) == ""
  {
    DigestsConcat(shared + [c, h], python, digest);
    DigestFormat(shared, c, [h], digest);
    DigestFormat([], h, [], digest);
    assert shared + [c] + [h] == shared + [c, h] && [] + [h] + [] == [h];
  }

  /** The repository bytes behind a path. */
  ghost predicate Behind(r: Repository, path: string, data: Bytes) {
    exists id :: Identifies(r, path, id) && id in r.files && r.files[id] == data
  }

  ghost predicate AllBehind(r: Repository, all: seq<string>) {
    forall p | p in all :: exists data :: Behind(r, p, data)
  }

  lemma BehindDigest(r: Repository, path: string, data: Bytes, hash: Hash)
    requires Behind(r, path, data)
    ensures RepositoryDigest(r, path, hash) == hash(data)
    ensures forall other | Behind(r, path, other) :: other == data
  {
    var id :| Identifies(r, path, id) && id in r.files && r.files[id] == data;
    assert IdentityOf(r, path) == id;
  }

  /** The files of two lexical identities hold the same bytes in the same places. */
  ghost predicate SameContents(a: Repository, allA: seq<string>, b: Repository, allB: seq<string>) {
    |allA| == |allB| && forall k | 0 <= k < |allA| :: SameBehind(a, allA[k], b, allB[k])
  }

  /** With collision-free digests of one length two joins of digests are equal exactly when the files hold the same bytes
      in the same places. */
  lemma DigestsDetermineContents(a: Repository, allA: seq<string>, b: Repository, allB: seq<string>, hash: Hash, n: nat)
    requires FixedLength(hash, n) && n > 0 && CollisionFree(hash) && AllBehind(a, allA) && AllBehind(b, allB)
    ensures Digests(allA, p => RepositoryDigest(a, p, hash)) == Digests(allB, p => RepositoryDigest(b, p, hash)) <==>
            SameContents(a, allA, b, allB)
  {
    var digestA, digestB := p => RepositoryDigest(a, p, hash), p => RepositoryDigest(b, p, hash);
    DigestLengths(a, allA, hash, n);
    DigestLengths(b, allB, hash, n);
    if |allA| == |allB| {
      forall k | 0 <= k < |allA|
        ensures digestA(allA[k]) == digestB(allB[k]) <==> SameBehind(a, allA[k], b, allB[k])
      {
        assert allA[k] in allA && allB[k] in allB;
        SamePlace(a, allA[k], b, allB[k], hash);
      }
    }
    hide RepositoryDigest, SameBehind, Digests, AllBehind;
    if Digests(allA, digestA) == Digests(allB, digestB) { DigestsInjective(allA, digestA, allB, digestB, n); }
    if SameContents(a, allA, b, allB) { DigestsSame(allA, digestA, allB, digestB); }
  }

  lemma DigestLengths(r: Repository, all: seq<string>, hash: Hash, n: nat)
    requires FixedLength(hash, n) && AllBehind(r, all)
    ensures forall p | p in all :: |RepositoryDigest(r, p, hash)| == n
  {
    forall p | p in all
      ensures |RepositoryDigest(r, p, hash)| == n
    {
      var data :| Behind(r, p, data);
      BehindDigest(r, p, data, hash);
    }
  }

  ghost predicate SameBehind(a: Repository, p: string, b: Repository, q: string) {
    forall data :: Behind(a, p, data) <==> Behind(b, q, data)
  }

  lemma SamePlace(a: Repository, p: string, b: Repository, q: string, hash: Hash)
    requires CollisionFree(hash) && (exists data :: Behind(a, p, data)) && exists data :: Behind(b, q, data)
    ensures RepositoryDigest(a, p, hash) == RepositoryDigest(b, q, hash) <==> SameBehind(a, p, b, q)
  {
    var x :| Behind(a, p, x);
    var y :| Behind(b, q, y);
    BehindDigest(a, p, x, hash);
    BehindDigest(b, q, y, hash);
    hide Behind, RepositoryDigest;
  }

  /** Two accepted lexical materials are equal exactly when the files behind them hold the same bytes, in the order of
      shared list, scanner and Python sources. */
  lemma LexicalDeterminesContents(a: Repository, pathsA: seq<string>, b: Repository, pathsB: seq<string>, language: string,
                                  directory: string, lines: Bytes -> seq<string>, hash: Hash, n: nat)
    returns (allA: seq<string>, allB: seq<string>)
    requires FixedLength(hash, n) && n > 0 && CollisionFree(hash)
    requires var list := "src/evidence/lexical/provider_identity.sources"; list in a.files && list in b.files
    requires RepositoryLexical(a, pathsA, language, directory, lines, hash).Ok?
    requires RepositoryLexical(b, pathsB, language, directory, lines, hash).Ok?
    ensures var list := "src/evidence/lexical/provider_identity.sources";
            && LexicalFiles(pathsA, lines(a.files[list]), language, directory, allA)
            && LexicalFiles(pathsB, lines(b.files[list]), language, directory, allB)
    ensures var x := RepositoryLexical(a, pathsA, language, directory, lines, hash);
            var y := RepositoryLexical(b, pathsB, language, directory, lines, hash);
            AllBehind(a, allA) && AllBehind(b, allB) ==> (x == y <==> SameContents(a, allA, b, allB))
  {
    hide RepositoryDigest, LexicalMaterial, LexicalFiles, AllBehind, SameContents, Digests;
    allA := LexicalMeans(pathsA, lines(a.files[LEXICAL_IDENTITY]), language, directory, p => RepositoryDigest(a, p, hash));
    allB := LexicalMeans(pathsB, lines(b.files[LEXICAL_IDENTITY]), language, directory, p => RepositoryDigest(b, p, hash));
    if AllBehind(a, allA) && AllBehind(b, allB) { DigestsDetermineContents(a, allA, b, allB, hash, n); }
  }
}
