/** The terminal-cause ledger: one row per reviewed truth item, classified at the boundary where it was lost,
    and its agreement with the separately computed recall metrics. */
module RetrievalLedger {
  import opened Prelude
  import opened Ordering
  import opened Dedup
  import opened QueryRankings
  import opened RankingMetrics

  const TOP_K: nat := 20

  datatype Kind = Files | Symbols | Tests

  datatype Cause = NotApplicableToBeforeState | AbsentFromMap | HitAtTopK | RankedBelowTopK
                 | CollapsedByEvidencePolicy | OmittedByContextBudget | AbsentFromProjection | Unknown

  /** The identities the Map knows, per kind. */
  datatype Inventory = Inventory(files: set<string>, symbols: set<string>, tests: set<string>)

  datatype Truth = Truth(relevantFiles: seq<string>, relevantSymbols: seq<string>, relevantTests: seq<string>,
                         introducedTests: set<string>)

  datatype Row = Row(identity: string, cause: Cause, contextRank: Option<nat>, projectionRank: Option<nat>)

  datatype Ledger = Ledger(files: seq<Row>, symbols: seq<Row>, tests: seq<Row>)

  /** The rankings of one kind at the three boundaries of the projection. */
  datatype View = View(canonical: seq<string>, eligible: seq<string>, presented: seq<string>)

  /** Everything the classification of one kind consults. */
  datatype Boundary = Boundary(view: View, inventory: set<string>, introduced: set<string>,
                               policyExcluded: set<string>, boundaryExcluded: set<string>, shapeKnown: bool)

  // ----- the three views

  function ContextFiles(files: seq<FileRow>, matched: seq<SymbolRef>, tests: seq<TestRow>): seq<string> {
    Distinct(Distinct(FilePaths(files)) + Distinct(MatchedFiles(matched)) + Distinct(TestPaths(tests)))
  }

  function ContextSymbols(files: seq<FileRow>, matched: seq<SymbolRef>): seq<string> {
    Distinct(Distinct(SymbolIds(matched, None)) + Distinct(SymbolsOfFiles(files)))
  }

  function ViewOf(kind: Kind, matched: seq<SymbolRef>, s: Selection): View {
    match kind
    case Files => View(ContextFiles(s.canonicalFiles, matched, s.canonicalTests),
                       ContextFiles(s.eligibleFiles, matched, s.eligibleTests),
                       ContextFiles(s.presentedFiles, matched, s.presentedTests))
    case Symbols => View(ContextSymbols(s.canonicalFiles, matched), ContextSymbols(s.eligibleFiles, matched),
                         ContextSymbols(s.presentedFiles, matched))
    case Tests => View(Distinct(TestIdentities(s.canonicalTests)), Distinct(TestIdentities(s.eligibleTests)),
                       Distinct(TestIdentities(s.presentedTests)))
  }

  /** The part of an identity before its first "::". */
  function BeforeSelector(identity: string): string {
    if |identity| < 2 then identity
    else if identity[0] == ':' && identity[1] == ':' then []
    else [identity[0]] + BeforeSelector(identity[1..])
  }

  function ExcludedTests(s: Selection, why: Exclusion): set<string>
    requires |s.exclusions| == |s.canonicalTests|
  {
    set i | 0 <= i < |s.canonicalTests| && s.exclusions[i] == Some(why) :: TestIdentity(s.canonicalTests[i])
  }

  function ExcludedOfKind(kind: Kind, s: Selection, why: Exclusion): set<string>
    requires |s.exclusions| == |s.canonicalTests|
  {
    match kind
    case Files => set t | t in ExcludedTests(s, why) :: BeforeSelector(t)
    case Symbols => {}
    case Tests => ExcludedTests(s, why)
  }

  function BoundaryOf(kind: Kind, matched: seq<SymbolRef>, s: Selection, mapped: Inventory, truth: Truth,
                      shapeKnown: bool): Boundary
    requires |s.exclusions| == |s.canonicalTests|
  {
    Boundary(ViewOf(kind, matched, s),
             match kind { case Files => mapped.files case Symbols => mapped.symbols case Tests => mapped.tests },
             if kind.Tests? then truth.introducedTests else {},
             ExcludedOfKind(kind, s, EvidencePolicy), ExcludedOfKind(kind, s, ProjectionBoundary), shapeKnown)
  }

  // ----- classification

  /** One-based position of `x`, or `None`. */
  function RankOf(ids: seq<string>, x: string): (r: Option<nat>)
    ensures r.None? <==> x !in ids
    ensures r.Some? ==> 1 <= r.value <= |ids| && ids[r.value - 1] == x && x !in ids[..r.value - 1]
  {
    if ids == [] then None
    else if ids[0] == x then Some(1)
    else
      var rest := RankOf(ids[1..], x);
      assert ids == [ids[0]] + ids[1..];
      if rest.None? then None
      else
        assert ids[..rest.value] == [ids[0]] + ids[1..][..rest.value - 1];
        Some(rest.value + 1)
  }

  function CauseOf(b: Boundary, identity: string): Cause {
    var contextRank := RankOf(b.view.presented, identity);
    if identity in b.introduced then NotApplicableToBeforeState
    else if identity !in b.inventory then AbsentFromMap
    else if contextRank.Some? && contextRank.value <= TOP_K then HitAtTopK
    else if contextRank.Some? then RankedBelowTopK
    else if identity in b.policyExcluded && identity !in b.view.eligible then CollapsedByEvidencePolicy
    else if identity in b.view.eligible then OmittedByContextBudget
    else if RankOf(b.view.canonical, identity).Some? || identity in b.boundaryExcluded then AbsentFromProjection
    else if b.shapeKnown then AbsentFromProjection
    else Unknown
  }

  function RowOf(b: Boundary, identity: string): Row {
    Row(identity, CauseOf(b, identity), RankOf(b.view.presented, identity), RankOf(b.view.canonical, identity))
  }

  function Rows(b: Boundary, identities: seq<string>): (r: seq<Row>)
    ensures |r| == |identities| && forall i | 0 <= i < |r| :: r[i] == RowOf(b, identities[i])
  {
    seq(|identities|, i requires 0 <= i < |identities| => RowOf(b, identities[i]))
  }

  function RetrievalMissLedger(matched: seq<SymbolRef>, s: Selection, mapped: Inventory, truth: Truth,
                               shapeKnown: bool): Ledger
    requires |s.exclusions| == |s.canonicalTests|
  {
    Ledger(Rows(BoundaryOf(Files, matched, s, mapped, truth, shapeKnown), truth.relevantFiles),
           Rows(BoundaryOf(Symbols, matched, s, mapped, truth, shapeKnown), truth.relevantSymbols),
           Rows(BoundaryOf(Tests, matched, s, mapped, truth, shapeKnown),
                Sorted(Elements(truth.relevantTests) + truth.introducedTests)))
  }

  function HitRows(rows: seq<Row>): nat {
    if rows == [] then 0 else (if rows[0].cause.HitAtTopK? then 1 else 0) + HitRows(rows[1..])
  }

  // ----- presented within eligible within canonical

  /** Every row of `a` occurs in `b`. */
  ghost predicate Within<T>(a: seq<T>, b: seq<T>) {
    forall x | x in a :: x in b
  }

  lemma RowsNest(query: Query)
    requires SelectionOf(query).Ok?
    ensures var s := SelectionOf(query).value;
            && Within(s.presentedFiles, s.eligibleFiles) && Within(s.eligibleFiles, s.canonicalFiles)
            && Within(s.presentedTests, s.eligibleTests) && Within(s.eligibleTests, s.canonicalTests)
  {
    var s := SelectionOf(query).value;
    EligibleIsLongest(s.canonicalFiles, SettingsOf(query.context).value.maxDistance);
    KeptMembers(s.canonicalTests, s.exclusions);
  }

  lemma {:induction false} SymbolsOfFilesMembers(rows: seq<FileRow>)
    ensures forall x :: x in SymbolsOfFiles(rows) <==> exists f | f in rows :: x in SymbolIds(f.symbols, Some(f.path))
  {
    if rows != [] {
      SymbolsOfFilesMembers(rows[1..]);
      assert rows == [rows[0]] + rows[1..];
    }
  }

  lemma ContextFilesMembers(files: seq<FileRow>, matched: seq<SymbolRef>, tests: seq<TestRow>)
    ensures forall x :: x in ContextFiles(files, matched, tests) <==>
              (exists f | f in files :: f.path == x) || x in MatchedFiles(matched) || (exists t | t in tests :: t.path == x)
  {
    var a, b, c := FilePaths(files), MatchedFiles(matched), TestPaths(tests);
    DistinctMembers(a);
    DistinctMembers(b);
    DistinctMembers(c);
    DistinctMembers(Distinct(a) + Distinct(b) + Distinct(c));
    forall x
      ensures x in a <==> exists f | f in files :: f.path == x
      ensures x in c <==> exists t | t in tests :: t.path == x
    {
      if x in a { var i :| 0 <= i < |a| && a[i] == x; assert files[i] in files; }
      if f :| f in files && f.path == x { var i :| 0 <= i < |files| && files[i] == f; assert a[i] == x; }
      if x in c { var i :| 0 <= i < |c| && c[i] == x; assert tests[i] in tests; }
      if t :| t in tests && t.path == x { var i :| 0 <= i < |tests| && tests[i] == t; assert c[i] == x; }
    }
  }

  lemma ContextSymbolsMembers(files: seq<FileRow>, matched: seq<SymbolRef>)
    ensures forall x :: x in ContextSymbols(files, matched) <==>
              x in SymbolIds(matched, None) || exists f | f in files :: x in SymbolIds(f.symbols, Some(f.path))
  {
    DistinctMembers(SymbolIds(matched, None));
    DistinctMembers(SymbolsOfFiles(files));
    DistinctMembers(Distinct(SymbolIds(matched, None)) + Distinct(SymbolsOfFiles(files)));
    SymbolsOfFilesMembers(files);
  }

  lemma TestIdentityMembers(tests: seq<TestRow>)
    ensures forall x :: x in Distinct(TestIdentities(tests)) <==> exists t | t in tests :: TestIdentity(t) == x
  {
    var ids := TestIdentities(tests);
    DistinctMembers(ids);
    forall x
      ensures x in ids <==> exists t | t in tests :: TestIdentity(t) == x
    {
      if x in ids { var i :| 0 <= i < |ids| && ids[i] == x; assert tests[i] in tests; }
      if t :| t in tests && TestIdentity(t) == x {
        var i :| 0 <= i < |tests| && tests[i] == t;
        assert ids[i] == x;
      }
    }
  }

  /** What is presented is eligible, and what is eligible is canonical, for files, symbols and tests alike. */
  lemma ViewsNest(kind: Kind, query: Query)
    requires SelectionOf(query).Ok?
    ensures var v := ViewOf(kind, query.matchedSymbols, SelectionOf(query).value);
            Within(v.presented, v.eligible) && Within(v.eligible, v.canonical)
  {
    RowsNest(query);
    var s, m := SelectionOf(query).value, query.matchedSymbols;
    match kind
    case Files =>
      ContextFilesMembers(s.canonicalFiles, m, s.canonicalTests);
      ContextFilesMembers(s.eligibleFiles, m, s.eligibleTests);
      ContextFilesMembers(s.presentedFiles, m, s.presentedTests);
    case Symbols =>
      ContextSymbolsMembers(s.canonicalFiles, m);
      ContextSymbolsMembers(s.eligibleFiles, m);
      ContextSymbolsMembers(s.presentedFiles, m);
    case Tests =>
      TestIdentityMembers(s.canonicalTests);
      TestIdentityMembers(s.eligibleTests);
      TestIdentityMembers(s.presentedTests);
  }

  // ----- exactness of the causes

  /** Where an item stops, said without the order of the program's tests. */
  lemma CausesExact(kind: Kind, query: Query, mapped: Inventory, truth: Truth, shapeKnown: bool, identity: string)
    requires SelectionOf(query).Ok?
    ensures var b := BoundaryOf(kind, query.matchedSymbols, SelectionOf(query).value, mapped, truth, shapeKnown);
            var cause := CauseOf(b, identity);
            var known := identity in b.inventory && identity !in b.introduced;
            && (cause == NotApplicableToBeforeState <==> kind.Tests? && identity in truth.introducedTests)
            && (cause == AbsentFromMap <==> identity !in b.inventory && identity !in b.introduced)
            && (cause == HitAtTopK <==> known && identity in Take(b.view.presented, TOP_K))
            && (cause == RankedBelowTopK <==>
                known && identity in b.view.presented && identity !in Take(b.view.presented, TOP_K))
            && (cause == OmittedByContextBudget <==>
                known && identity in b.view.eligible && identity !in b.view.presented)
            && (cause == CollapsedByEvidencePolicy <==>
                known && identity in b.policyExcluded && identity !in b.view.eligible)
            && (cause == AbsentFromProjection <==>
                known && identity !in b.view.eligible && identity !in b.policyExcluded
                && (identity in b.view.canonical || identity in b.boundaryExcluded || shapeKnown))
            && (cause == Unknown <==>
                known && identity !in b.policyExcluded && identity !in b.boundaryExcluded
                && identity !in b.view.canonical && !shapeKnown)
  {
    ViewsNest(kind, query);
    var b := BoundaryOf(kind, query.matchedSymbols, SelectionOf(query).value, mapped, truth, shapeKnown);
    RankedWithin(b.view.presented, identity);
    assert identity in b.view.presented ==> identity in b.view.eligible;
    assert identity in b.view.eligible ==> identity in b.view.canonical;
  }

  lemma RankedWithin(ids: seq<string>, x: string)
    ensures RankOf(ids, x).Some? && RankOf(ids, x).value <= TOP_K <==> x in Take(ids, TOP_K)
  {
    var r := RankOf(ids, x);
    if r.Some? && r.value <= TOP_K {
      assert Take(ids, TOP_K)[r.value - 1] == x;
    }
    if x in Take(ids, TOP_K) {
      var i :| 0 <= i < |Take(ids, TOP_K)| && Take(ids, TOP_K)[i] == x;
      EarliestRank(ids, x, i);
    }
  }

  lemma {:induction false} EarliestRank(ids: seq<string>, x: string, i: nat)
    requires i < |ids| && ids[i] == x
    ensures RankOf(ids, x).Some? && RankOf(ids, x).value <= i + 1
  {
    if i > 0 { EarliestRank(ids[1..], x, i - 1); }
  }

  /** Under the audit profile with neither quotas nor offsets nothing is ever omitted for lack of budget. */
  lemma AuditOmitsNothing(kind: Kind, query: Query, mapped: Inventory, truth: Truth, shapeKnown: bool, identity: string)
    requires query.context.Present? && query.context.value.profile == Present(Audit)
    requires query.context.value.quotas.Absent? && query.context.value.offsets.Absent?
    requires SelectionOf(query).Ok?
    ensures SelectionOf(query).value.presentedFiles == SelectionOf(query).value.eligibleFiles
    ensures SelectionOf(query).value.presentedTests == SelectionOf(query).value.eligibleTests
    ensures var b := BoundaryOf(kind, query.matchedSymbols, SelectionOf(query).value, mapped, truth, shapeKnown);
            CauseOf(b, identity) != OmittedByContextBudget
  {
    var s := SelectionOf(query).value;
    assert SettingsOf(query.context).value.defaultQuota == None;
    assert s.presentedFiles == s.eligibleFiles && s.presentedTests == s.eligibleTests;
    CausesExact(kind, query, mapped, truth, shapeKnown, identity);
  }

  /** Each truth item gets exactly one row, introduced tests included. */
  lemma OneRowPerItem(matched: seq<SymbolRef>, s: Selection, mapped: Inventory, truth: Truth, shapeKnown: bool)
    requires |s.exclusions| == |s.canonicalTests|
    ensures var l := RetrievalMissLedger(matched, s, mapped, truth, shapeKnown);
            && Identities(l.files) == truth.relevantFiles
            && Identities(l.symbols) == truth.relevantSymbols
            && NoRepeats(Identities(l.tests))
            && Elements(Identities(l.tests)) == Elements(truth.relevantTests) + truth.introducedTests
  {
    assert Identities(RetrievalMissLedger(matched, s, mapped, truth, shapeKnown).tests)
           == Sorted(Elements(truth.relevantTests) + truth.introducedTests);
  }

  ghost function Identities(rows: seq<Row>): seq<string> {
    seq(|rows|, i requires 0 <= i < |rows| => rows[i].identity)
  }

  // ----- agreement with the metrics

  ghost function Hits(b: Boundary, ids: seq<string>): set<string> {
    set x | x in ids && CauseOf(b, x).HitAtTopK?
  }

  lemma {:induction false} HitRowsCount(b: Boundary, ids: seq<string>)
    requires NoRepeats(ids)
    ensures HitRows(Rows(b, ids)) == |Hits(b, ids)|
  {
    if ids != [] {
      var first, rest := ids[0], ids[1..];
      HitRowsCount(b, rest);
      HitsStep(b, first, rest);
      assert ids == [first] + rest;
      assert Rows(b, ids)[1..] == Rows(b, rest);
      assert first !in rest;
    }
  }

  lemma HitsStep(b: Boundary, first: string, rest: seq<string>)
    ensures Hits(b, [first] + rest) == if CauseOf(b, first).HitAtTopK? then {first} + Hits(b, rest) else Hits(b, rest)
  {}

  /** For one kind: the ledger's hits among `ids` (the truth items and possibly introduced ones) number the same as the
      metric's exactly when no truth item of the first 20 is missing from the Map or introduced. */
  lemma HitsMatchRecall(b: Boundary, ranked: seq<string>, relevant: seq<string>, ids: seq<string>)
    requires b.view.presented == Distinct(ranked)
    requires NoRepeats(ids) && relevant != []
    requires forall x :: x in ids ==> x in relevant || x in b.introduced
    requires forall x :: x in relevant ==> x in ids
    ensures HitRows(Rows(b, ids)) == RankMetrics(ranked, relevant).recallAt20.value.numerator <==>
            forall x | x in relevant && x in Take(Distinct(ranked), TOP_K) :: x in b.inventory && x !in b.introduced
  {
    RecallNumerator(ranked, relevant);
    HitRowsCount(b, ids);
    HitsAreSeen(b, ranked, relevant, ids);
    hide *;
    CountsMatch(Hits(b, ids), relevant, Take(Distinct(ranked), TOP_K), b.inventory, b.introduced);
  }

  lemma CountsMatch(hits: set<string>, relevant: seq<string>, seen: seq<string>, inventory: set<string>,
                    introduced: set<string>)
    requires forall x :: x in hits <==> x in relevant && x in inventory && x !in introduced && x in seen
    ensures |hits| == |Elements(relevant) * Elements(seen)| <==>
            forall x | x in relevant && x in seen :: x in inventory && x !in introduced
  {
    var both := Elements(relevant) * Elements(seen);
    assert forall x :: x in both <==> x in relevant && x in seen;
    hide Elements;
    assert hits <= both;
    SubsetSize(hits, both);
  }

  lemma RecallNumerator(ranked: seq<string>, relevant: seq<string>)
    requires relevant != []
    ensures RankMetrics(ranked, relevant).recallAt20.value.numerator
            == |Elements(relevant) * Elements(Take(Distinct(ranked), TOP_K))|
  {
    assert relevant[0] in Elements(relevant);
    hide Distinct, FirstHit;
  }

  lemma HitsAreSeen(b: Boundary, ranked: seq<string>, relevant: seq<string>, ids: seq<string>)
    requires b.view.presented == Distinct(ranked)
    requires forall x :: x in ids ==> x in relevant || x in b.introduced
    requires forall x :: x in relevant ==> x in ids
    ensures forall x :: x in Hits(b, ids) <==>
              x in relevant && x in b.inventory && x !in b.introduced && x in Take(Distinct(ranked), TOP_K)
  {
    hide Distinct, Take, RankOf;
    forall x
      ensures x in Hits(b, ids) <==>
                x in relevant && x in b.inventory && x !in b.introduced && x in Take(Distinct(ranked), TOP_K)
    {
      RankedWithin(b.view.presented, x);
    }
  }

  /** For any query, profile, quotas and offsets: the ledger's file hits equal the numerator of
      `issue_context_file_recall_at_20` exactly when each truth file among the first 20 is in the Map, and its test
      hits equal that of `issue_test_recall_at_20` exactly when each truth test among the first 20 is in the Map
      and not introduced. */
  lemma LedgerAgreesWithMetrics(query: Query, mapped: Inventory, truth: Truth, shapeKnown: bool)
    requires SelectionOf(query).Ok?
    requires NoRepeats(truth.relevantFiles)
    ensures var s := SelectionOf(query).value;
            var rankings := RankingsOf(query, s);
            var ledger := RetrievalMissLedger(query.matchedSymbols, s, mapped, truth, shapeKnown);
            var files, tests := Take(rankings.contextFiles, TOP_K), Take(rankings.tests, TOP_K);
            && (truth.relevantFiles != [] ==>
                (HitRows(ledger.files) == RankMetrics(rankings.contextFiles, truth.relevantFiles).recallAt20.value.numerator
                 <==> forall x | x in truth.relevantFiles && x in files :: x in mapped.files))
            && (truth.relevantTests != [] ==>
                (HitRows(ledger.tests) == RankMetrics(rankings.tests, truth.relevantTests).recallAt20.value.numerator
                 <==> forall x | x in truth.relevantTests && x in tests ::
                        x in mapped.tests && x !in truth.introducedTests))
  {
    var s := SelectionOf(query).value;
    var files, tests := RankingsOf(query, s).contextFiles, RankingsOf(query, s).tests;
    PresentedMatchesRankings(query, s);
    var all := Sorted(Elements(truth.relevantTests) + truth.introducedTests);
    forall x
      ensures x in all <==> x in truth.relevantTests || x in truth.introducedTests
    {
      assert x in all <==> x in Elements(all);
    }
    if truth.relevantFiles != [] {
      HitsMatchRecall(BoundaryOf(Files, query.matchedSymbols, s, mapped, truth, shapeKnown), files,
                      truth.relevantFiles, truth.relevantFiles);
    }
    if truth.relevantTests != [] {
      HitsMatchRecall(BoundaryOf(Tests, query.matchedSymbols, s, mapped, truth, shapeKnown), tests,
                      truth.relevantTests, all);
    }
  }

  /** The two computations rank the same identities: deduplicating part by part or all at once is the same, and
      ranking an already distinct list changes nothing. */
  lemma PresentedMatchesRankings(query: Query, s: Selection)
    ensures var r := RankingsOf(query, s);
            && ViewOf(Files, query.matchedSymbols, s).presented == r.contextFiles == Distinct(r.contextFiles)
            && ViewOf(Tests, query.matchedSymbols, s).presented == r.tests == Distinct(r.tests)
  {
    var a, b, c := FilePaths(s.presentedFiles), MatchedFiles(query.matchedSymbols), TestPaths(s.presentedTests);
    DistinctOfDistincts(a, b, c);
    DistinctMembers(a + b + c);
    DistinctFixed(Distinct(a + b + c));
    DistinctMembers(TestIdentities(s.presentedTests));
    DistinctFixed(Distinct(TestIdentities(s.presentedTests)));
  }
}
