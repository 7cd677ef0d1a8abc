/** What each ranking lists: the values named at the positions of a document, in order of their first occurrence. */
module RankingOrder {
  import opened Prelude
  import opened Dedup
  import opened QueryRankings

  // ----- positions and what they name

  /** Where in a document values are named. */
  datatype Listing =
    | FilePlaces(files: seq<FileRow>)
    | SeedPlaces(files: seq<FileRow>)
    | ContextPlaces(files: seq<FileRow>, matched: seq<SymbolRef>, tests: seq<TestRow>)
    | SymbolPlaces(files: seq<FileRow>)
    | MatchedPlaces(matched: seq<SymbolRef>)
    | ContextSymbolPlaces(files: seq<FileRow>, matched: seq<SymbolRef>)
    | TestPlaces(tests: seq<TestRow>)

  type Place = (nat, nat)

  predicate Before(p: Place, q: Place) {
    p.0 < q.0 || (p.0 == q.0 && p.1 < q.1)
  }

  /** The symbol's identity: its own path, or that of the file it is listed under, and its name. */
  predicate NamesSymbol(symbol: SymbolRef, file: Option<string>, x: string) {
    symbol.name.Some?
    && ((symbol.path.Present? && x == symbol.path.value + ":" + symbol.name.value)
        || (symbol.path.Absent? && file.Some? && x == file.value + ":" + symbol.name.value))
  }

  predicate FileSymbol(files: seq<FileRow>, f: nat, s: nat, x: string) {
    f < |files| && s < |files[f].symbols| && NamesSymbol(files[f].symbols[s], Some(files[f].path), x)
  }

  /** The value named at a place. A context lists files, then matched symbols' files, then test files; a symbol context
      lists the matched symbols, then each file's. */
  predicate Named(l: Listing, p: Place, x: string) {
    match l
    case FilePlaces(files) => p.0 == 0 && p.1 < |files| && files[p.1].path == x
    case SeedPlaces(files) => p.0 == 0 && p.1 < |files| && files[p.1].path == x && files[p.1].distance == Some(0)
    case ContextPlaces(files, matched, tests) =>
      || (p.0 == 0 && p.1 < |files| && files[p.1].path == x)
      || (p.0 == 1 && p.1 < |matched| && matched[p.1].path == Present(x))
      || (p.0 == 2 && p.1 < |tests| && tests[p.1].path == x)
    case SymbolPlaces(files) => FileSymbol(files, p.0, p.1, x)
    case MatchedPlaces(matched) => p.0 == 0 && p.1 < |matched| && NamesSymbol(matched[p.1], None, x)
    case ContextSymbolPlaces(files, matched) =>
      || (p.0 == 0 && p.1 < |matched| && NamesSymbol(matched[p.1], None, x))
      || (p.0 > 0 && FileSymbol(files, p.0 - 1, p.1, x))
    case TestPlaces(tests) => p.0 == 0 && p.1 < |tests| && x == tests[p.1].path + "::" + tests[p.1].selector
  }

  ghost predicate NamedSomewhere(l: Listing, x: string) {
    exists p: Place :: Named(l, p, x)
  }

  /** Wherever `later` is named, `earlier` is named before. */
  ghost predicate NamedEarlier(l: Listing, earlier: string, later: string) {
    forall p: Place | Named(l, p, later) :: exists q: Place :: Named(l, q, earlier) && Before(q, p)
  }

  /** The values named, each once, in order of first occurrence. */
  ghost predicate RanksByFirst(r: seq<string>, l: Listing) {
    && NoRepeats(r)
    && (forall x :: x in r <==> NamedSomewhere(l, x))
    && forall j, k | 0 <= j < k < |r| :: NamedEarlier(l, r[j], r[k])
  }

  // ----- lists of what is named

  /** `values` are what the places from `lo` up to `hi` name, place by place. */
  ghost predicate Lists(l: Listing, values: seq<string>, places: seq<Place>, lo: Place, hi: Place) {
    |values| == |places| && AllNamed(l, values, places, lo, hi) && InOrder(places) && Complete(l, values, places, lo, hi)
  }

  ghost predicate AllNamed(l: Listing, values: seq<string>, places: seq<Place>, lo: Place, hi: Place)
    requires |values| == |places|
  {
    forall i | 0 <= i < |places| :: !Before(places[i], lo) && Before(places[i], hi) && Named(l, places[i], values[i])
  }

  ghost predicate InOrder(places: seq<Place>) {
    forall i, j | 0 <= i < j < |places| :: Before(places[i], places[j])
  }

  ghost predicate Complete(l: Listing, values: seq<string>, places: seq<Place>, lo: Place, hi: Place)
    requires |values| == |places|
  {
    forall p: Place, x | Named(l, p, x) && !Before(p, lo) && Before(p, hi) :: Occurs(values, places, p, x)
  }

  ghost predicate Occurs(values: seq<string>, places: seq<Place>, p: Place, x: string)
    requires |values| == |places|
  {
    exists i :: 0 <= i < |places| && places[i] == p && values[i] == x
  }

  lemma OccursJoined(a: seq<string>, p: seq<Place>, b: seq<string>, q: seq<Place>, r: Place, x: string)
    requires |a| == |p| && |b| == |q|
    ensures Occurs(a, p, r, x) || Occurs(b, q, r, x) ==> Occurs(a + b, p + q, r, x)
  {
    if Occurs(a, p, r, x) {
      var i :| 0 <= i < |p| && p[i] == r && a[i] == x;
      assert (p + q)[i] == r && (a + b)[i] == x;
    }
    if Occurs(b, q, r, x) {
      var i :| 0 <= i < |q| && q[i] == r && b[i] == x;
      assert (p + q)[|p| + i] == r && (a + b)[|p| + i] == x;
    }
  }

  lemma NamedJoined(l: Listing, a: seq<string>, p: seq<Place>, b: seq<string>, q: seq<Place>, lo: Place, mid: Place, hi: Place)
    requires |a| == |p| && |b| == |q| && AllNamed(l, a, p, lo, mid) && AllNamed(l, b, q, mid, hi)
    requires !Before(mid, lo) && !Before(hi, mid)
    ensures AllNamed(l, a + b, p + q, lo, hi)
  {
    hide Named;
  }

  lemma OrderJoined(p: seq<Place>, q: seq<Place>, mid: Place)
    requires InOrder(p) && InOrder(q)
    requires (forall i | 0 <= i < |p| :: Before(p[i], mid)) && forall i | 0 <= i < |q| :: !Before(q[i], mid)
    ensures InOrder(p + q)
  {}

  lemma ListsJoin(l: Listing, a: seq<string>, p: seq<Place>, b: seq<string>, q: seq<Place>, lo: Place, mid: Place, hi: Place)
    requires Lists(l, a, p, lo, mid) && Lists(l, b, q, mid, hi)
    requires !Before(mid, lo) && !Before(hi, mid)
    ensures Lists(l, a + b, p + q, lo, hi)
  {
    NamedJoined(l, a, p, b, q, lo, mid, hi);
    OrderJoined(p, q, mid);
    hide Named, AllNamed, InOrder, Occurs;
    forall r: Place, x | Named(l, r, x) && !Before(r, lo) && Before(r, hi)
      ensures Occurs(a + b, p + q, r, x)
    {
      OccursJoined(a, p, b, q, r, x);
    }
  }

  lemma ListsNothing(l: Listing, lo: Place, hi: Place)
    requires forall p: Place, x | Named(l, p, x) :: Before(p, lo) || !Before(p, hi)
    ensures Lists(l, [], [], lo, hi)
  {}

  lemma ListsOne(l: Listing, p: Place, values: seq<string>) returns (places: seq<Place>)
    requires |values| <= 1 && (forall x :: Named(l, p, x) <==> values == [x])
    ensures Lists(l, values, places, p, (p.0, p.1 + 1))
  {
    if values == [] {
      places := [];
    } else {
      places := [p];
      assert Named(l, p, values[0]);
    }
    hide Named;
    forall q: Place, x | Named(l, q, x) && !Before(q, p) && Before(q, (p.0, p.1 + 1))
      ensures Occurs(values, places, q, x)
    {
      assert q == p && values == [x];
      assert places[0] == q && values[0] == x;
    }
  }

  /** A list of what all places name, deduplicated, ranks them by first occurrence. */
  lemma DistinctRanks(l: Listing, values: seq<string>, places: seq<Place>, hi: Place)
    requires Lists(l, values, places, (0, 0), hi)
    requires forall p: Place, x | Named(l, p, x) :: Before(p, hi)
    ensures RanksByFirst(Distinct(values), l)
  {
    hide Named;
    DistinctMembers(values);
    forall x
      ensures x in values <==> NamedSomewhere(l, x)
    {
      if x in values {
        var i :| 0 <= i < |values| && values[i] == x;
        assert Named(l, places[i], x);
      }
      if NamedSomewhere(l, x) {
        var p: Place :| Named(l, p, x);
        assert Occurs(values, places, p, x);
      }
    }
    var r := Distinct(values);
    forall j, k | 0 <= j < k < |r|
      ensures NamedEarlier(l, r[j], r[k])
    {
      EarlierOccurrence(l, values, places, hi, j, k);
    }
  }

  lemma EarlierOccurrence(l: Listing, values: seq<string>, places: seq<Place>, hi: Place, j: nat, k: nat)
    requires Lists(l, values, places, (0, 0), hi)
    requires forall p: Place, x | Named(l, p, x) :: Before(p, hi)
    requires j < k < |Distinct(values)|
    ensures NamedEarlier(l, Distinct(values)[j], Distinct(values)[k])
  {
    hide Named;
    var r := Distinct(values);
    var at := DistinctInOrder(values, k);
    DistinctMembers(values[..at]);
    assert r[..k][j] == r[j];
    assert r[j] in values[..at];
    var i :| 0 <= i < at && values[..at][i] == r[j];
    forall p: Place | Named(l, p, r[k])
      ensures exists q: Place :: Named(l, q, r[j]) && Before(q, p)
    {
      assert Occurs(values, places, p, r[k]);
      var m :| 0 <= m < |places| && places[m] == p && values[m] == r[k];
      assert forall n | 0 <= n < at :: values[n] == values[..at][n] && values[n] in values[..at];
      assert Named(l, places[i], r[j]) && Before(places[i], places[m]);
    }
  }

  // ----- the lists of the extraction

  /** Places `(row, 0)` up to `(row, n)` of a list that names at most one value at each. */
  lemma {:induction false} SymbolsListed(l: Listing, symbols: seq<SymbolRef>, file: Option<string>, row: nat, done: nat)
    returns (places: seq<Place>)
    requires done <= |symbols|
    requires forall s: nat, x :: Named(l, (row, s), x) <==> s < |symbols| && NamesSymbol(symbols[s], file, x)
    ensures Lists(l, SymbolIds(symbols[done..], file), places, (row, done), (row, |symbols|))
    decreases |symbols| - done
  {
    if done == |symbols| {
      places := [];
      ListsNothing(l, (row, done), (row, |symbols|));
    } else {
      assert symbols[done..][1..] == symbols[done + 1..];
      var id := SymbolIdentity(symbols[done], file);
      var first := if id.Some? then [id.value] else [];
      assert forall x :: Named(l, (row, done), x) <==> first == [x];
      var p := ListsOne(l, (row, done), first);
      var q := SymbolsListed(l, symbols, file, row, done + 1);
      hide Named;
      ListsJoin(l, first, p, SymbolIds(symbols[done + 1..], file), q, (row, done), (row, done + 1), (row, |symbols|));
      places := p + q;
    }
  }

  /** The parts of places `from` to `n - 1`, joined. */
  ghost function Flat(part: nat -> seq<string>, from: nat, n: nat): seq<string>
    requires from <= n
    decreases n - from
  {
    if from == n then [] else part(from) + Flat(part, from + 1, n)
  }

  lemma {:induction false} RowListed(l: Listing, row: nat, part: nat -> seq<string>, from: nat, n: nat)
    returns (places: seq<Place>)
    requires from <= n && forall s: nat :: |part(s)| <= 1
    requires forall s: nat, x :: Named(l, (row, s), x) <==> s < n && part(s) == [x]
    ensures Lists(l, Flat(part, from, n), places, (row, from), (row, n))
    decreases n - from
  {
    if from == n {
      places := [];
      ListsNothing(l, (row, n), (row, n));
    } else {
      var p := ListsOne(l, (row, from), part(from));
      var q := RowListed(l, row, part, from + 1, n);
      hide Named;
      ListsJoin(l, part(from), p, Flat(part, from + 1, n), q, (row, from), (row, from + 1), (row, n));
      places := p + q;
    }
  }

  function PathPart(files: seq<FileRow>, i: nat): seq<string> { if i < |files| then [files[i].path] else [] }

  function SeedPart(files: seq<FileRow>, i: nat): seq<string> {
    if i < |files| && files[i].distance == Some(0) then [files[i].path] else []
  }

  function MatchedPart(matched: seq<SymbolRef>, i: nat): seq<string> {
    if i < |matched| && matched[i].path.Present? then [matched[i].path.value] else []
  }

  function TestPathPart(tests: seq<TestRow>, i: nat): seq<string> { if i < |tests| then [tests[i].path] else [] }

  function TestPart(tests: seq<TestRow>, i: nat): seq<string> {
    if i < |tests| then [tests[i].path + "::" + tests[i].selector] else []
  }

  lemma {:induction false} PathsFlat(files: seq<FileRow>, from: nat)
    requires from <= |files|
    ensures Flat((i: nat) => PathPart(files, i), from, |files|) == FilePaths(files[from..])
    decreases |files| - from
  {
    if from < |files| {
      PathsFlat(files, from + 1);
      assert FilePaths(files[from..]) == [files[from].path] + FilePaths(files[from + 1..]);
    }
  }

  lemma {:induction false} SeedsFlat(files: seq<FileRow>, from: nat)
    requires from <= |files|
    ensures Flat((i: nat) => SeedPart(files, i), from, |files|) == SeedPaths(files[from..])
    decreases |files| - from
  {
    if from < |files| {
      SeedsFlat(files, from + 1);
      assert files[from..][1..] == files[from + 1..];
    }
  }

  lemma {:induction false} MatchedFlat(matched: seq<SymbolRef>, from: nat)
    requires from <= |matched|
    ensures Flat((i: nat) => MatchedPart(matched, i), from, |matched|) == MatchedFiles(matched[from..])
    decreases |matched| - from
  {
    if from < |matched| {
      MatchedFlat(matched, from + 1);
      assert matched[from..][1..] == matched[from + 1..];
    }
  }

  lemma {:induction false} TestPathsFlat(tests: seq<TestRow>, from: nat)
    requires from <= |tests|
    ensures Flat((i: nat) => TestPathPart(tests, i), from, |tests|) == TestPaths(tests[from..])
    decreases |tests| - from
  {
    if from < |tests| {
      TestPathsFlat(tests, from + 1);
      assert TestPaths(tests[from..]) == [tests[from].path] + TestPaths(tests[from + 1..]);
    }
  }

  lemma {:induction false} TestsFlat(tests: seq<TestRow>, from: nat)
    requires from <= |tests|
    ensures Flat((i: nat) => TestPart(tests, i), from, |tests|) == TestIdentities(tests[from..])
    decreases |tests| - from
  {
    if from < |tests| {
      TestsFlat(tests, from + 1);
      assert TestIdentities(tests[from..]) == [TestIdentity(tests[from])] + TestIdentities(tests[from + 1..]);
    }
  }

  // ----- the rankings

  lemma FilesRanked(files: seq<FileRow>)
    ensures RanksByFirst(Distinct(FilePaths(files)), FilePlaces(files))
  {
    var places := RowListed(FilePlaces(files), 0, (i: nat) => PathPart(files, i), 0, |files|);
    PathsFlat(files, 0);
    assert files[0..] == files;
    DistinctRanks(FilePlaces(files), FilePaths(files), places, (0, |files|));
  }

  lemma SeedsRanked(files: seq<FileRow>)
    ensures RanksByFirst(Distinct(SeedPaths(files)), SeedPlaces(files))
  {
    var places := RowListed(SeedPlaces(files), 0, (i: nat) => SeedPart(files, i), 0, |files|);
    SeedsFlat(files, 0);
    assert files[0..] == files;
    DistinctRanks(SeedPlaces(files), SeedPaths(files), places, (0, |files|));
  }

  lemma TestsRanked(tests: seq<TestRow>)
    ensures RanksByFirst(Distinct(TestIdentities(tests)), TestPlaces(tests))
  {
    var places := RowListed(TestPlaces(tests), 0, (i: nat) => TestPart(tests, i), 0, |tests|);
    TestsFlat(tests, 0);
    assert tests[0..] == tests;
    DistinctRanks(TestPlaces(tests), TestIdentities(tests), places, (0, |tests|));
  }

  lemma MatchedRanked(matched: seq<SymbolRef>)
    ensures RanksByFirst(Distinct(SymbolIds(matched, None)), MatchedPlaces(matched))
  {
    var places := SymbolsListed(MatchedPlaces(matched), matched, None, 0, 0);
    assert matched[0..] == matched;
    DistinctRanks(MatchedPlaces(matched), SymbolIds(matched, None), places, (0, |matched|));
  }

  /** Row `row` holds the symbols of one file. */
  lemma OneFileListed(l: Listing, file: FileRow, row: nat) returns (places: seq<Place>)
    requires forall s: nat, x :: Named(l, (row, s), x) <==> s < |file.symbols| && NamesSymbol(file.symbols[s], Some(file.path), x)
    ensures Lists(l, SymbolIds(file.symbols, Some(file.path)), places, (row, 0), (row + 1, 0))
  {
    var symbols, values := file.symbols, SymbolIds(file.symbols, Some(file.path));
    places := SymbolsListed(l, symbols, Some(file.path), row, 0);
    assert symbols[0..] == symbols;
    ListsNothing(l, (row, |symbols|), (row + 1, 0));
    hide Named, NamesSymbol, Lists, SymbolIds;
    ListsJoin(l, values, places, [], [], (row, 0), (row, |symbols|), (row + 1, 0));
    assert values + [] == values && places + [] == places;
  }

  /** Rows `first`, `first + 1` and so on hold the symbols of the files from `done` on. */
  lemma {:induction false} FileSymbolsListed(l: Listing, files: seq<FileRow>, first: nat, done: nat) returns (places: seq<Place>)
    requires done <= |files|
    requires forall p: Place, x | p.0 >= first :: Named(l, p, x) <==> FileSymbol(files, p.0 - first, p.1, x)
    ensures Lists(l, SymbolsOfFiles(files[done..]), places, (first + done, 0), (first + |files|, 0))
    decreases |files| - done
  {
    hide Named, Lists, SymbolIds, NamesSymbol;
    var end := (first + |files|, 0);
    if done == |files| {
      places := [];
      assert forall p: Place, x | Named(l, p, x) :: Before(p, end) || !Before(p, end);
      ListsNothing(l, end, end);
    } else {
      assert files[done..][1..] == files[done + 1..];
      var p := OneFileListed(l, files[done], first + done);
      var q := FileSymbolsListed(l, files, first, done + 1);
      hide FileSymbol;
      ListsJoin(l, SymbolIds(files[done].symbols, Some(files[done].path)), p, SymbolsOfFiles(files[done + 1..]), q,
                (first + done, 0), (first + done + 1, 0), end);
      places := p + q;
    }
  }

  lemma SymbolsRanked(files: seq<FileRow>) returns (places: seq<Place>)
    ensures RanksByFirst(Distinct(SymbolsOfFiles(files)), SymbolPlaces(files))
    ensures Lists(SymbolPlaces(files), SymbolsOfFiles(files), places, (0, 0), (|files|, 0))
  {
    places := FileSymbolsListed(SymbolPlaces(files), files, 0, 0);
    assert files[0..] == files;
    DistinctRanks(SymbolPlaces(files), SymbolsOfFiles(files), places, (|files|, 0));
  }

  lemma ContextSymbolsRanked(files: seq<FileRow>, matched: seq<SymbolRef>)
    ensures RanksByFirst(Distinct(SymbolIds(matched, None) + SymbolsOfFiles(files)), ContextSymbolPlaces(files, matched))
  {
    var l := ContextSymbolPlaces(files, matched);
    var p := SymbolsListed(l, matched, None, 0, 0);
    assert matched[0..] == matched && files[0..] == files;
    var q := FileSymbolsListed(l, files, 1, 0);
    ListsNothing(l, (0, |matched|), (1, 0));
    var a, b, end := SymbolIds(matched, None), SymbolsOfFiles(files), (1 + |files|, 0);
    assert forall r: Place, x | Named(l, r, x) :: Before(r, end);
    hide Named, Lists;
    ListsJoin(l, a, p, [], [], (0, 0), (0, |matched|), (1, 0));
    assert a + [] == a && p + [] == p;
    ListsJoin(l, a, p, b, q, (0, 0), (1, 0), end);
    DistinctRanks(l, a + b, p + q, end);
  }

  /** The first row of a context. */
  lemma ContextFilesListed(files: seq<FileRow>, matched: seq<SymbolRef>, tests: seq<TestRow>) returns (places: seq<Place>)
    ensures Lists(ContextPlaces(files, matched, tests), FilePaths(files), places, (0, 0), (1, 0))
  {
    var l, a := ContextPlaces(files, matched, tests), FilePaths(files);
    places := RowListed(l, 0, (i: nat) => PathPart(files, i), 0, |files|);
    PathsFlat(files, 0);
    assert files[0..] == files;
    ListsNothing(l, (0, |files|), (1, 0));
    ListsJoin(l, a, places, [], [], (0, 0), (0, |files|), (1, 0));
    assert a + [] == a && places + [] == places;
  }

  /** The second row. */
  lemma ContextMatchedListed(files: seq<FileRow>, matched: seq<SymbolRef>, tests: seq<TestRow>) returns (places: seq<Place>)
    ensures Lists(ContextPlaces(files, matched, tests), MatchedFiles(matched), places, (1, 0), (2, 0))
  {
    var l, b := ContextPlaces(files, matched, tests), MatchedFiles(matched);
    places := RowListed(l, 1, (i: nat) => MatchedPart(matched, i), 0, |matched|);
    MatchedFlat(matched, 0);
    assert matched[0..] == matched;
    ListsNothing(l, (1, |matched|), (2, 0));
    ListsJoin(l, b, places, [], [], (1, 0), (1, |matched|), (2, 0));
    assert b + [] == b && places + [] == places;
  }

  /** The third row. */
  lemma ContextTestsListed(files: seq<FileRow>, matched: seq<SymbolRef>, tests: seq<TestRow>) returns (places: seq<Place>)
    ensures Lists(ContextPlaces(files, matched, tests), TestPaths(tests), places, (2, 0), (2, |tests|))
  {
    places := RowListed(ContextPlaces(files, matched, tests), 2, (i: nat) => TestPathPart(tests, i), 0, |tests|);
    TestPathsFlat(tests, 0);
    assert tests[0..] == tests;
  }

  lemma ContextRanked(files: seq<FileRow>, matched: seq<SymbolRef>, tests: seq<TestRow>)
    ensures RanksByFirst(Distinct(FilePaths(files) + MatchedFiles(matched) + TestPaths(tests)), ContextPlaces(files, matched, tests))
  {
    var l := ContextPlaces(files, matched, tests);
    var p := ContextFilesListed(files, matched, tests);
    var q := ContextMatchedListed(files, matched, tests);
    var r := ContextTestsListed(files, matched, tests);
    var a, b, c, end := FilePaths(files), MatchedFiles(matched), TestPaths(tests), (2, |tests|);
    assert forall s: Place, x | Named(l, s, x) :: Before(s, end);
    hide Named, Lists, RanksByFirst;
    ListsJoin(l, a, p, b, q, (0, 0), (1, 0), (2, 0));
    ListsJoin(l, a + b, p + q, c, r, (0, 0), (2, 0), end);
    DistinctRanks(l, a + b + c, p + q + r, end);
  }

  /** Every ranking of an accepted query lists, by first occurrence and each once: presented files; presented files, then
      matched symbols' files, then presented tests' files; canonical files at distance 0; symbols of presented files;
      matched symbols; presented tests. The evidence counts the canonical files, named symbols and tests. */
  lemma RankingsExactly(query: Query, s: Selection) returns (values: seq<string>, places: seq<Place>)
    ensures var r := RankingsOf(query, s);
            && RanksByFirst(r.files, FilePlaces(s.presentedFiles))
            && RanksByFirst(r.contextFiles, ContextPlaces(s.presentedFiles, query.matchedSymbols, s.presentedTests))
            && RanksByFirst(r.seedFiles, SeedPlaces(s.canonicalFiles))
            && RanksByFirst(r.symbols, SymbolPlaces(s.presentedFiles))
            && RanksByFirst(r.matchedSymbols, MatchedPlaces(query.matchedSymbols))
            && RanksByFirst(r.tests, TestPlaces(s.presentedTests))
            && r.selection == s
            && r.evidence.files == |s.canonicalFiles| && r.evidence.tests == |s.canonicalTests|
            && Lists(SymbolPlaces(s.canonicalFiles), values, places, (0, 0), (|s.canonicalFiles|, 0))
            && r.evidence.symbols == |places|
  {
    FilesRanked(s.presentedFiles);
    ContextRanked(s.presentedFiles, query.matchedSymbols, s.presentedTests);
    SeedsRanked(s.canonicalFiles);
    var _ := SymbolsRanked(s.presentedFiles);
    MatchedRanked(query.matchedSymbols);
    TestsRanked(s.presentedTests);
    values := SymbolsOfFiles(s.canonicalFiles);
    places := SymbolsRanked(s.canonicalFiles);
    hide RanksByFirst;
  }
}
