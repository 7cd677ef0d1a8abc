/** Why each truth item of a ledger was lost or found, in terms of the document, the Map and the truth alone. */
module TerminalCauses {
  import opened Prelude
  import opened Ordering
  import opened Dedup
  import opened QueryRankings
  import opened RankingOrder
  import opened RetrievalLedger

  /** The one-based rank of `x` among what a listing names, or `None` if it names it nowhere. */
  ghost predicate HasRank(l: Listing, x: string, rank: Option<nat>) {
    exists ranking: seq<string> ::
      && RanksByFirst(ranking, l)
      && if rank.Some? then 1 <= rank.value <= |ranking| && ranking[rank.value - 1] == x else x !in ranking
  }

  /** One condition for each cause, told without an order among them. */
  ghost predicate Explains(cause: Cause, introduced: bool, inMap: bool, rank: Option<nat>, eligible: bool, canonical: bool,
                           policy: bool, boundary: bool, shapeKnown: bool)
  {
    var known := inMap && !introduced;
    && (cause == NotApplicableToBeforeState <==> introduced)
    && (cause == AbsentFromMap <==> !inMap && !introduced)
    && (cause == HitAtTopK <==> known && rank.Some? && rank.value <= 20)
    && (cause == RankedBelowTopK <==> known && rank.Some? && rank.value > 20)
    && (cause == OmittedByContextBudget <==> known && eligible && rank.None?)
    && (cause == CollapsedByEvidencePolicy <==> known && policy && !eligible)
    && (cause == AbsentFromProjection <==> known && !eligible && !policy && (canonical || boundary || shapeKnown))
    && (cause == Unknown <==> known && !canonical && !policy && !boundary && !shapeKnown)
  }

  // ----- the three views

  function PlacesOf(kind: Kind, files: seq<FileRow>, matched: seq<SymbolRef>, tests: seq<TestRow>): Listing {
    match kind
    case Files => ContextPlaces(files, matched, tests)
    case Symbols => ContextSymbolPlaces(files, matched)
    case Tests => TestPlaces(tests)
  }

  lemma PairDistinct(a: seq<string>, b: seq<string>)
    ensures Distinct(Distinct(a) + Distinct(b)) == Distinct(a + b)
  {
    DistinctRight(Distinct(a), b);
    DistinctLeft(a, b);
  }

  lemma StageRanks(kind: Kind, files: seq<FileRow>, matched: seq<SymbolRef>, tests: seq<TestRow>)
    ensures var ranking := match kind
                           case Files => ContextFiles(files, matched, tests)
                           case Symbols => ContextSymbols(files, matched)
                           case Tests => Distinct(TestIdentities(tests));
            RanksByFirst(ranking, PlacesOf(kind, files, matched, tests))
  {
    match kind
    case Files =>
      DistinctOfDistincts(FilePaths(files), MatchedFiles(matched), TestPaths(tests));
      ContextRanked(files, matched, tests);
    case Symbols =>
      PairDistinct(SymbolIds(matched, None), SymbolsOfFiles(files));
      ContextSymbolsRanked(files, matched);
    case Tests => TestsRanked(tests);
  }

  lemma ViewRanks(kind: Kind, matched: seq<SymbolRef>, s: Selection)
    ensures var v := ViewOf(kind, matched, s);
            && RanksByFirst(v.canonical, PlacesOf(kind, s.canonicalFiles, matched, s.canonicalTests))
            && RanksByFirst(v.eligible, PlacesOf(kind, s.eligibleFiles, matched, s.eligibleTests))
            && RanksByFirst(v.presented, PlacesOf(kind, s.presentedFiles, matched, s.presentedTests))
  {
    StageRanks(kind, s.canonicalFiles, matched, s.canonicalTests);
    StageRanks(kind, s.eligibleFiles, matched, s.eligibleTests);
    StageRanks(kind, s.presentedFiles, matched, s.presentedTests);
    hide RanksByFirst, ContextFiles, ContextSymbols;
  }

  lemma RankMeans(ranking: seq<string>, l: Listing, x: string)
    requires RanksByFirst(ranking, l)
    ensures HasRank(l, x, RankOf(ranking, x)) && (RankOf(ranking, x).Some? <==> NamedSomewhere(l, x))
  {}

  // ----- excluded identities

  predicate ColonsAt(s: string, k: nat) {
    k + 1 < |s| && s[k] == ':' && s[k + 1] == ':'
  }

  /** `x` is the part of an identity before its first "::". */
  ghost predicate BeforeFirst(identity: string, x: string) {
    x <= identity && ColonsAt(identity, |x|) && forall k: nat | k < |x| :: !ColonsAt(identity, k)
  }

  lemma BeforeSelectorMeans(path: string, rest: string)
    ensures forall x :: BeforeFirst(path + "::" + rest, x) <==> x == BeforeSelector(path + "::" + rest)
  {
    var identity := path + "::" + rest;
    assert ColonsAt(identity, |path|);
    FirstPart(identity, |path|);
    forall x | BeforeFirst(identity, x)
      ensures x == BeforeSelector(identity)
    {
      OneFirstPart(identity, x, BeforeSelector(identity));
    }
  }

  lemma {:induction false} FirstPart(identity: string, at: nat)
    requires ColonsAt(identity, at)
    ensures BeforeFirst(identity, BeforeSelector(identity))
  {
    if !ColonsAt(identity, 0) {
      var rest := identity[1..];
      assert forall k: nat :: ColonsAt(rest, k) <==> ColonsAt(identity, k + 1);
      assert ColonsAt(rest, at - 1);
      FirstPart(rest, at - 1);
      var x := BeforeSelector(rest);
      assert identity == [identity[0]] + rest;
      forall k: nat | k < |x| + 1
        ensures !ColonsAt(identity, k)
      {
        if k > 0 { assert !ColonsAt(rest, k - 1); }
      }
    }
  }

  lemma OneFirstPart(identity: string, x: string, y: string)
    requires BeforeFirst(identity, x) && BeforeFirst(identity, y)
    ensures x == y
  {
    assert |x| == |y|;
    assert x == identity[..|x|] && y == identity[..|y|];
  }

  /** Some test row with this exclusion has this identity. */
  ghost predicate TestExcluded(s: Selection, why: Exclusion, x: string) {
    exists k :: 0 <= k < |s.canonicalTests| && k < |s.exclusions| && s.exclusions[k] == Some(why)
                && x == s.canonicalTests[k].path + "::" + s.canonicalTests[k].selector
  }

  /** Some test row with this exclusion has an identity that starts with this file. */
  ghost predicate FileExcluded(s: Selection, why: Exclusion, x: string) {
    exists k :: 0 <= k < |s.canonicalTests| && k < |s.exclusions| && s.exclusions[k] == Some(why)
                && BeforeFirst(s.canonicalTests[k].path + "::" + s.canonicalTests[k].selector, x)
  }

  lemma TestExclusionMeans(s: Selection, why: Exclusion, x: string)
    requires |s.exclusions| == |s.canonicalTests|
    ensures x in ExcludedTests(s, why) <==> TestExcluded(s, why, x)
  {}

  lemma FileExclusionMeans(s: Selection, why: Exclusion, x: string)
    requires |s.exclusions| == |s.canonicalTests|
    ensures x in ExcludedOfKind(Files, s, why) <==> FileExcluded(s, why, x)
  {
    forall k | 0 <= k < |s.canonicalTests| && s.exclusions[k] == Some(why)
      ensures TestIdentity(s.canonicalTests[k]) in ExcludedTests(s, why)
      ensures BeforeFirst(TestIdentity(s.canonicalTests[k]), x) <==> x == BeforeSelector(TestIdentity(s.canonicalTests[k]))
    {
      BeforeSelectorMeans(s.canonicalTests[k].path, s.canonicalTests[k].selector);
    }
    hide BeforeFirst, BeforeSelector;
  }

  // ----- the causes

  lemma CauseExplained(kind: Kind, query: Query, mapped: Inventory, truth: Truth, shapeKnown: bool, x: string)
    requires SelectionOf(query).Ok?
    ensures var s := SelectionOf(query).value;
            var b := BoundaryOf(kind, query.matchedSymbols, s, mapped, truth, shapeKnown);
            && HasRank(PlacesOf(kind, s.presentedFiles, query.matchedSymbols, s.presentedTests), x, RowOf(b, x).contextRank)
            && HasRank(PlacesOf(kind, s.canonicalFiles, query.matchedSymbols, s.canonicalTests), x, RowOf(b, x).projectionRank)
            && Explains(RowOf(b, x).cause, x in b.introduced, x in b.inventory, RowOf(b, x).contextRank,
                        NamedSomewhere(PlacesOf(kind, s.eligibleFiles, query.matchedSymbols, s.eligibleTests), x),
                        NamedSomewhere(PlacesOf(kind, s.canonicalFiles, query.matchedSymbols, s.canonicalTests), x),
                        x in b.policyExcluded, x in b.boundaryExcluded, shapeKnown)
  {
    var s, m := SelectionOf(query).value, query.matchedSymbols;
    var v := ViewOf(kind, m, s);
    ViewRanks(kind, m, s);
    ViewsNest(kind, query);
    hide ViewOf, SelectionOf, ExcludedOfKind, RowOf;
    var b := BoundaryOf(kind, m, s, mapped, truth, shapeKnown);
    BoundaryExplains(b, x);
    RankMeans(v.canonical, PlacesOf(kind, s.canonicalFiles, m, s.canonicalTests), x);
    RankMeans(v.eligible, PlacesOf(kind, s.eligibleFiles, m, s.eligibleTests), x);
    RankMeans(v.presented, PlacesOf(kind, s.presentedFiles, m, s.presentedTests), x);
    hide RankOf, HasRank, NamedSomewhere, Explains, PlacesOf, RanksByFirst, Within;
  }

  lemma BoundaryExplains(b: Boundary, x: string)
    requires Within(b.view.presented, b.view.eligible) && Within(b.view.eligible, b.view.canonical)
    ensures RowOf(b, x).contextRank == RankOf(b.view.presented, x) && RowOf(b, x).projectionRank == RankOf(b.view.canonical, x)
    ensures Explains(RowOf(b, x).cause, x in b.introduced, x in b.inventory, RankOf(b.view.presented, x),
                     RankOf(b.view.eligible, x).Some?, RankOf(b.view.canonical, x).Some?, x in b.policyExcluded,
                     x in b.boundaryExcluded, b.shapeKnown)
  {
    assert x in b.view.presented ==> x in b.view.eligible;
    assert x in b.view.eligible ==> x in b.view.canonical;
    hide Within;
  }

  /** The row of a reviewed or introduced test, with its ranks among the presented and canonical tests and its cause. */
  lemma TestCauses(query: Query, mapped: Inventory, truth: Truth, shapeKnown: bool, i: nat)
    requires SelectionOf(query).Ok?
    requires i < |RetrievalMissLedger(query.matchedSymbols, SelectionOf(query).value, mapped, truth, shapeKnown).tests|
    ensures var s := SelectionOf(query).value;
            var row := RetrievalMissLedger(query.matchedSymbols, s, mapped, truth, shapeKnown).tests[i];
            var x := row.identity;
            && HasRank(TestPlaces(s.presentedTests), x, row.contextRank)
            && HasRank(TestPlaces(s.canonicalTests), x, row.projectionRank)
            && Explains(row.cause, x in truth.introducedTests, x in mapped.tests, row.contextRank,
                        NamedSomewhere(TestPlaces(s.eligibleTests), x), NamedSomewhere(TestPlaces(s.canonicalTests), x),
                        TestExcluded(s, EvidencePolicy, x), TestExcluded(s, ProjectionBoundary, x), shapeKnown)
  {
    var s := SelectionOf(query).value;
    var x := RetrievalMissLedger(query.matchedSymbols, s, mapped, truth, shapeKnown).tests[i].identity;
    CauseExplained(Tests, query, mapped, truth, shapeKnown, x);
    TestExclusionMeans(s, EvidencePolicy, x);
    TestExclusionMeans(s, ProjectionBoundary, x);
    hide SelectionOf, ExcludedTests, TestExcluded, NamedSomewhere, HasRank, Explains;
  }

  /** The row of a reviewed file. A file counts as excluded with the tests it holds. */
  lemma FileCauses(query: Query, mapped: Inventory, truth: Truth, shapeKnown: bool, i: nat)
    requires SelectionOf(query).Ok?
    requires i < |RetrievalMissLedger(query.matchedSymbols, SelectionOf(query).value, mapped, truth, shapeKnown).files|
    ensures var s, matched := SelectionOf(query).value, query.matchedSymbols;
            var row := RetrievalMissLedger(matched, s, mapped, truth, shapeKnown).files[i];
            var x := row.identity;
            && HasRank(ContextPlaces(s.presentedFiles, matched, s.presentedTests), x, row.contextRank)
            && HasRank(ContextPlaces(s.canonicalFiles, matched, s.canonicalTests), x, row.projectionRank)
            && Explains(row.cause, false, x in mapped.files, row.contextRank,
                        NamedSomewhere(ContextPlaces(s.eligibleFiles, matched, s.eligibleTests), x),
                        NamedSomewhere(ContextPlaces(s.canonicalFiles, matched, s.canonicalTests), x),
                        FileExcluded(s, EvidencePolicy, x), FileExcluded(s, ProjectionBoundary, x), shapeKnown)
  {
    var s := SelectionOf(query).value;
    var x := RetrievalMissLedger(query.matchedSymbols, s, mapped, truth, shapeKnown).files[i].identity;
    CauseExplained(Files, query, mapped, truth, shapeKnown, x);
    FileExclusionMeans(s, EvidencePolicy, x);
    FileExclusionMeans(s, ProjectionBoundary, x);
    hide SelectionOf, ExcludedOfKind, FileExcluded, NamedSomewhere, HasRank, Explains;
  }

  /** The row of a reviewed symbol. No symbol is excluded by itself. */
  lemma SymbolCauses(query: Query, mapped: Inventory, truth: Truth, shapeKnown: bool, i: nat)
    requires SelectionOf(query).Ok?
    requires i < |RetrievalMissLedger(query.matchedSymbols, SelectionOf(query).value, mapped, truth, shapeKnown).symbols|
    ensures var s, matched := SelectionOf(query).value, query.matchedSymbols;
            var row := RetrievalMissLedger(matched, s, mapped, truth, shapeKnown).symbols[i];
            var x := row.identity;
            && HasRank(ContextSymbolPlaces(s.presentedFiles, matched), x, row.contextRank)
            && HasRank(ContextSymbolPlaces(s.canonicalFiles, matched), x, row.projectionRank)
            && Explains(row.cause, false, x in mapped.symbols, row.contextRank,
                        NamedSomewhere(ContextSymbolPlaces(s.eligibleFiles, matched), x),
                        NamedSomewhere(ContextSymbolPlaces(s.canonicalFiles, matched), x), false, false, shapeKnown)
  {
    var s := SelectionOf(query).value;
    var x := RetrievalMissLedger(query.matchedSymbols, s, mapped, truth, shapeKnown).symbols[i].identity;
    CauseExplained(Symbols, query, mapped, truth, shapeKnown, x);
    hide SelectionOf, NamedSomewhere, HasRank, Explains;
  }
}
