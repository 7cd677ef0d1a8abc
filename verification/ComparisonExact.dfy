/** What a comparison of two runs says, row by row: metric verdicts, statuses, transitions and the counters. */
module ComparisonExact {
  import opened Prelude
  import opened Ordering
  import opened RunComparison
  import opened ComparisonLaws

  // ----- what a metric's name decides

  predicate TokenAt(name: string, token: string, i: nat) {
    i + |token| <= |name| && name[i..i + |token|] == token
  }

  ghost predicate Contains(name: string, token: string) {
    exists i: nat :: TokenAt(name, token, i)
  }

  lemma {:induction false} TokenMeans(name: string, token: string)
    ensures HasToken(name, token) <==> Contains(name, token)
  {
    assert StartsWith(name, token) <==> TokenAt(name, token, 0);
    if name != [] {
      var rest := name[1..];
      TokenMeans(rest, token);
      forall i: nat
        ensures TokenAt(rest, token, i) <==> TokenAt(name, token, i + 1)
      {
        if i + 1 + |token| <= |name| { assert rest[i..i + |token|] == name[i + 1..i + 1 + |token|]; }
      }
      if i: nat :| TokenAt(name, token, i) {
        if i > 0 { assert TokenAt(rest, token, i - 1); }
      }
      if i: nat :| TokenAt(rest, token, i) { assert TokenAt(name, token, i + 1); }
    }
  }

  predicate IsPlan(name: string) {
    name == "act_preview_available" || name == "plan_acceptance_coverage" || name == "plan_executable_fraction"
    || name == "plan_generation_success"
  }

  predicate IsTier(name: string) {
    StartsWith(name, "relevant_test_all_") || StartsWith(name, "relevant_test_candidate_")
    || StartsWith(name, "relevant_test_direct_") || StartsWith(name, "relevant_test_observed_asserted_")
  }

  ghost predicate NamesCost(name: string) {
    Contains(name, "duration") || Contains(name, "rss")
  }

  ghost predicate NamesGain(name: string) {
    Contains(name, "recall") || Contains(name, "mrr") || Contains(name, "precision") || Contains(name, "accuracy")
    || Contains(name, "satisfied")
  }

  lemma CostsMean(name: string)
    ensures HasAny(name, COSTS) <==> NamesCost(name)
  {
    var tokens := COSTS;
    assert tokens[0] in tokens && tokens[1] in tokens;
    TokenMeans(name, "duration");
    TokenMeans(name, "rss");
    hide HasToken, Contains;
  }

  lemma GainsMean(name: string)
    ensures HasAny(name, GAINS) <==> NamesGain(name)
  {
    var tokens := GAINS;
    assert tokens[0] in tokens && tokens[1] in tokens && tokens[2] in tokens && tokens[3] in tokens && tokens[4] in tokens;
    TokenMeans(name, "recall");
    TokenMeans(name, "mrr");
    TokenMeans(name, "precision");
    TokenMeans(name, "accuracy");
    TokenMeans(name, "satisfied");
    hide HasToken, Contains;
  }

  lemma LossesMean(name: string)
    ensures HasAny(name, LOSSES) <==> NamesCost(name) || Contains(name, "distractor") || Contains(name, "false_findings")
  {
    var tokens := LOSSES;
    assert tokens[0] in tokens && tokens[1] in tokens && tokens[2] in tokens && tokens[3] in tokens;
    TokenMeans(name, "distractor");
    TokenMeans(name, "duration");
    TokenMeans(name, "false_findings");
    TokenMeans(name, "rss");
    hide HasToken, Contains;
  }

  lemma PlansMean(name: string)
    ensures name in PLAN_METRICS <==> IsPlan(name)
  {
    var plans := PLAN_METRICS;
    assert plans[0] in plans && plans[1] in plans && plans[2] in plans && plans[3] in plans;
  }

  lemma TiersMean(name: string)
    ensures IsTierMetric(name) <==> IsTier(name)
  {
    var tiers := TIERS;
    assert tiers[0] in tiers && tiers[1] in tiers && tiers[2] in tiers && tiers[3] in tiers;
    assert "relevant_test_" + "all" + "_" == "relevant_test_all_";
    assert "relevant_test_" + "candidate" + "_" == "relevant_test_candidate_";
    assert "relevant_test_" + "direct" + "_" == "relevant_test_direct_";
    assert "relevant_test_" + "observed_asserted" + "_" == "relevant_test_observed_asserted_";
    hide StartsWith;
  }

  /** The family a name decides, each with its own condition: costs are durations and sizes; context are distractors;
      quality are plans, false findings and gains; the rest, and the counts per tier, are scale. */
  lemma FamilyExactly(name: string)
    ensures MetricFamily(name) == Performance <==> NamesCost(name)
    ensures MetricFamily(name) == Context <==>
              !NamesCost(name) && !IsPlan(name) && !IsTier(name) && Contains(name, "distractor")
    ensures MetricFamily(name) == Quality <==>
              IsPlan(name)
              || (!NamesCost(name) && !IsTier(name) && !Contains(name, "distractor")
                  && (Contains(name, "false_findings") || NamesGain(name)))
  {
    CostsMean(name);
    GainsMean(name);
    PlansMean(name);
    TiersMean(name);
    TokenMeans(name, "distractor");
    TokenMeans(name, "false_findings");
    if name in PLAN_METRICS { PlanMetricsHaveNoCost(name); }
    hide HasToken, HasAny, Contains, NamesCost, NamesGain, IsTierMetric, IsTier, IsPlan, PLAN_METRICS, GAINS, COSTS;
  }

  /** The direction a name decides. */
  lemma DirectionExactly(name: string)
    ensures MetricDirection(name) == Higher <==> IsPlan(name) || (!IsTier(name) && NamesGain(name))
    ensures MetricDirection(name) == Lower <==>
              !IsPlan(name) && !IsTier(name) && !NamesGain(name)
              && (NamesCost(name) || Contains(name, "distractor") || Contains(name, "false_findings"))
  {
    LossesMean(name);
    GainsMean(name);
    PlansMean(name);
    TiersMean(name);
    hide HasToken, HasAny, Contains, NamesCost, NamesGain, IsTierMetric, IsTier, IsPlan, PLAN_METRICS, GAINS, LOSSES;
  }

  // ----- one metric

  function Size(x: real): real { if x < 0.0 then -x else x }

  /** Costs move when they change by more than 5% of the first value and by more than 0.001, everything else when it
      changes by more than 10^-12. */
  ghost predicate Moves(name: string, before: real, after: real) {
    var distance := Size(after - before);
    if NamesCost(name) then distance > Size(before) * 0.05 && distance > 0.001
    else distance > 1.0 / 1_000_000_000_000.0
  }

  /** The verdict on a metric: unchanged unless it moves; a cost, or a metric without direction, that moves has changed;
      any other improves in its direction and regresses against it. */
  ghost predicate IsVerdict(name: string, before: real, after: real, c: Class) {
    && (c == Unchanged <==> !Moves(name, before, after))
    && (c == Changed <==> Moves(name, before, after) && (NamesCost(name) || MetricDirection(name) == Undirected))
    && (c == Improved <==> Moves(name, before, after) && !NamesCost(name)
                           && ((MetricDirection(name) == Higher && after > before)
                               || (MetricDirection(name) == Lower && after < before)))
    && (c == Regressed <==> Moves(name, before, after) && !NamesCost(name)
                            && ((MetricDirection(name) == Higher && after < before)
                                || (MetricDirection(name) == Lower && after > before)))
    && c != Incomparable
  }

  lemma MetricExactly(name: string, before: real, after: real)
    ensures var m := CompareMetric(name, before, after);
            && m.before == before && m.after == after && m.delta == after - before
            && m.direction == MetricDirection(name) && m.family == MetricFamily(name)
            && m.tolerance == (if NamesCost(name) then Max(Size(before) * 0.05, 0.001) else 1.0 / 1_000_000_000_000.0)
            && IsVerdict(name, before, after, m.classification)
  {
    CostsMean(name);
    FamilyExactly(name);
    hide HasAny, NamesCost, MetricDirection, MetricFamily, IsPlan, IsTier, NamesGain, Contains;
  }

  // ----- ledgers

  /** The transitions of one kind: one for each identity, in ascending order, with the cause either ledger gives it, changed
      exactly when they differ. */
  ghost predicate KindTransitions(kind: Kind, before: seq<StoredRow>, after: seq<StoredRow>, ts: seq<Transition>) {
    && (forall i, j | 0 <= i < j < |ts| :: Below(ts[i].identity, ts[j].identity) && ts[i].identity != ts[j].identity)
    && (forall id :: Identified(before, id) <==> exists i :: 0 <= i < |ts| && ts[i].identity == id)
    && forall i | 0 <= i < |ts| ::
         && ts[i].kind == kind
         && StoredRow.StoredRow(ts[i].identity, ts[i].before) in before
         && StoredRow.StoredRow(ts[i].identity, ts[i].after) in after
         && ts[i].classification == if ts[i].before == ts[i].after then Unchanged else Changed
  }

  lemma {:induction false} CauseMapFrom(rows: seq<StoredRow>)
    ensures forall id | id in CauseMap(rows) :: StoredRow.StoredRow(id, CauseMap(rows)[id]) in rows
  {
    if rows != [] {
      var init, last := rows[..|rows| - 1], rows[|rows| - 1];
      CauseMapFrom(init);
      assert rows == init + [last];
    }
  }

  lemma KindShape(kind: Kind, before: Option<seq<StoredRow>>, after: Option<seq<StoredRow>>)
    requires CompareKind(kind, before, after).Ok?
    ensures before.Some? && after.Some?
    ensures var left, right := CauseMap(before.value), CauseMap(after.value);
            var ids, ts := Sorted(left.Keys), CompareKind(kind, before, after).value;
            && left.Keys == right.Keys && |ts| == |ids|
            && forall i | 0 <= i < |ts| :: ids[i] in left && ids[i] in right && ts[i] == TransitionOf(kind, left, right, ids[i])
  {
    var left := CauseMap(before.value);
    var ids := Sorted(left.Keys);
    hide CauseMap;
    forall i | 0 <= i < |ids| ensures ids[i] in left { assert ids[i] in Elements(ids); }
  }

  lemma KindIdentities(ids: seq<string>, keys: set<string>, rows: seq<StoredRow>, ts: seq<Transition>)
    requires ids == Sorted(keys) && (forall id :: id in keys <==> Identified(rows, id))
    requires |ts| == |ids| && forall i | 0 <= i < |ts| :: ts[i].identity == ids[i]
    ensures forall i, j | 0 <= i < j < |ts| :: Below(ts[i].identity, ts[j].identity) && ts[i].identity != ts[j].identity
    ensures forall id :: Identified(rows, id) <==> exists i :: 0 <= i < |ts| && ts[i].identity == id
  {
    hide Below, Identified;
    forall id
      ensures Identified(rows, id) <==> exists i :: 0 <= i < |ts| && ts[i].identity == id
    {
      assert id in keys <==> id in Elements(ids);
      if id in keys {
        var i :| 0 <= i < |ids| && ids[i] == id;
        assert ts[i].identity == id;
      }
      if i :| 0 <= i < |ts| && ts[i].identity == id { assert ids[i] in Elements(ids); }
    }
  }

  lemma KindCauses(kind: Kind, before: seq<StoredRow>, after: seq<StoredRow>, id: string)
    requires id in CauseMap(before) && id in CauseMap(after)
    ensures var t := TransitionOf(kind, CauseMap(before), CauseMap(after), id);
            && t.kind == kind && t.identity == id
            && StoredRow.StoredRow(id, t.before) in before && StoredRow.StoredRow(id, t.after) in after
            && t.classification == if t.before == t.after then Unchanged else Changed
  {
    CauseMapFrom(before);
    CauseMapFrom(after);
    hide CauseMap;
  }

  lemma KindFrom(kind: Kind, before: seq<StoredRow>, after: seq<StoredRow>, ids: seq<string>, ts: seq<Transition>)
    requires ids == Sorted(CauseMap(before).Keys)
    requires |ts| == |ids|
    requires forall i | 0 <= i < |ts| :: ids[i] in CauseMap(before) && ids[i] in CauseMap(after)
                                         && ts[i] == TransitionOf(kind, CauseMap(before), CauseMap(after), ids[i])
    ensures KindTransitions(kind, before, after, ts)
  {
    hide CauseMap, WellFormed, Below, Sorted, TransitionOf;
    forall i | 0 <= i < |ts|
      ensures ts[i] == TransitionOf(kind, CauseMap(before), CauseMap(after), ids[i])
      ensures ts[i].kind == kind && ts[i].identity == ids[i]
      ensures StoredRow.StoredRow(ids[i], ts[i].before) in before && StoredRow.StoredRow(ids[i], ts[i].after) in after
      ensures ts[i].classification == if ts[i].before == ts[i].after then Unchanged else Changed
    {
      KindCauses(kind, before, after, ids[i]);
    }
    KeysIdentified(before);
    KindIdentities(ids, CauseMap(before).Keys, before, ts);
    hide Identified;
  }

  lemma KeysIdentified(rows: seq<StoredRow>)
    ensures forall id :: id in CauseMap(rows).Keys <==> Identified(rows, id)
  {
    CauseMapSize(rows);
    hide CauseMap, WellFormed;
  }

  lemma KindExactly(kind: Kind, before: Option<seq<StoredRow>>, after: Option<seq<StoredRow>>)
    requires CompareKind(kind, before, after).Ok?
    ensures before.Some? && after.Some?
    ensures KindTransitions(kind, before.value, after.value, CompareKind(kind, before, after).value)
  {
    KindShape(kind, before, after);
    hide *;
    KindFrom(kind, before.value, after.value, Sorted(CauseMap(before.value).Keys), CompareKind(kind, before, after).value);
  }

  /** Both ledgers are there, under the known contract and for the same cutoff. */
  predicate Comparable(before: Option<StoredLedger>, after: Option<StoredLedger>) {
    before.Some? && after.Some? && before.value.contract == after.value.contract == "terminal-cause-v1"
    && before.value.topK == after.value.topK
  }

  ghost predicate SameRows(before: Option<seq<StoredRow>>, after: Option<seq<StoredRow>>) {
    && before.Some? && after.Some? && WellFormed(before.value) && WellFormed(after.value)
    && forall id :: Identified(before.value, id) <==> Identified(after.value, id)
  }

  /** The transitions of files, then symbols, then tests. */
  ghost predicate IsTransitions(before: StoredLedger, after: StoredLedger, ts: seq<Transition>) {
    && before.files.Some? && after.files.Some? && before.symbols.Some? && after.symbols.Some?
    && before.tests.Some? && after.tests.Some?
    && exists files, symbols, tests ::
         && ts == files + symbols + tests
         && KindTransitions(Files, before.files.value, after.files.value, files)
         && KindTransitions(Symbols, before.symbols.value, after.symbols.value, symbols)
         && KindTransitions(Tests, before.tests.value, after.tests.value, tests)
  }

  /** Ledgers that cannot be compared give no transitions. Comparable ones are accepted exactly when each kind has well
      formed rows over the same identities on both sides, and then give the transitions of the three kinds. */
  lemma LedgersExactly(before: Option<StoredLedger>, after: Option<StoredLedger>)
    ensures !Comparable(before, after) ==> CompareLedgers(before, after) == Ok([])
    ensures Comparable(before, after) ==>
              (CompareLedgers(before, after).Ok? <==>
               && SameRows(before.value.files, after.value.files) && SameRows(before.value.symbols, after.value.symbols)
               && SameRows(before.value.tests, after.value.tests))
    ensures Comparable(before, after) && CompareLedgers(before, after).Ok? ==>
              IsTransitions(before.value, after.value, CompareLedgers(before, after).value)
  {
    if Comparable(before, after) {
      var x, y := before.value, after.value;
      KindComparesExactly(Files, x.files, y.files);
      KindComparesExactly(Symbols, x.symbols, y.symbols);
      KindComparesExactly(Tests, x.tests, y.tests);
      hide CompareKind, WellFormed, Identified, KindTransitions;
      if CompareLedgers(before, after).Ok? {
        KindExactly(Files, x.files, y.files);
        KindExactly(Symbols, x.symbols, y.symbols);
        KindExactly(Tests, x.tests, y.tests);
      }
    }
  }

  // ----- statuses

  ghost predicate HasClass(row: Row, family: Family, c: Class)
    requires row.Compared?
  {
    exists name :: name in row.metrics && row.metrics[name].family == family && row.metrics[name].classification == c
  }

  /** The worst of the directed verdicts: regressed before improved before changed. */
  ghost predicate IsStatus(row: Row, family: Family, status: Class)
    requires row.Compared?
  {
    && (status == Regressed <==> HasClass(row, family, Regressed))
    && (status == Improved <==> HasClass(row, family, Improved) && !HasClass(row, family, Regressed))
    && (status == Changed <==>
        HasClass(row, family, Changed) && !HasClass(row, family, Improved) && !HasClass(row, family, Regressed))
    && status != Incomparable
  }

  /** Incomparable if some cost is, else changed if some cost has. */
  ghost predicate IsCostStatus(row: Row, status: Class)
    requires row.Compared?
  {
    && (status == Incomparable <==> HasClass(row, Performance, Incomparable))
    && (status == Changed <==> HasClass(row, Performance, Changed) && !HasClass(row, Performance, Incomparable))
    && status != Improved && status != Regressed
  }

  lemma ClassesMean(row: Row, family: Family, c: Class)
    requires row.Compared?
    ensures c in Classes(row.metrics, family) <==> HasClass(row, family, c)
  {}

  lemma StatusesExactly(left: Case, right: Case, timings: bool)
    ensures var r := CompareCases(left, right, timings);
            r.Ok? && r.value.Compared? ==>
              && IsStatus(r.value, Quality, r.value.status) && IsStatus(r.value, Context, r.value.context)
              && IsCostStatus(r.value, r.value.performance)
  {
    var r := CompareCases(left, right, timings);
    if r.Ok? && r.value.Compared? {
      forall family, c
        ensures c in Classes(r.value.metrics, family) <==> HasClass(r.value, family, c)
      {
        ClassesMean(r.value, family, c);
      }
      hide Classes, HasClass, Metrics, CompareLedgers;
    }
  }

  // ----- rows

  /** `c` is the last case of the run with this id. */
  ghost predicate IsCase(run: Run, id: string, c: Case) {
    exists k :: 0 <= k < |run.cases| && run.cases[k] == c && c.id == id && forall j | k < j < |run.cases| :: run.cases[j].id != id
  }

  lemma {:induction false} LatestCase(cases: seq<Case>, id: string) returns (k: nat)
    requires id in CasesById(cases)
    ensures k < |cases| && cases[k] == CasesById(cases)[id] && forall j | k < j < |cases| :: cases[j].id != id
  {
    var n := |cases| - 1;
    if cases[n].id == id {
      k := n;
    } else {
      k := LatestCase(cases[..n], id);
      assert cases[..n][k] == cases[k] && forall j | k < j < n :: cases[j] == cases[..n][j];
    }
  }

  lemma {:induction false} ListedCase(cases: seq<Case>, k: nat)
    requires k < |cases|
    ensures cases[k].id in CasesById(cases)
  {
    if k < |cases| - 1 {
      ListedCase(cases[..|cases| - 1], k);
      assert cases[..|cases| - 1][k] == cases[k];
    }
  }

  /** The row's entry for a metric: both values, the facts its name decides, and the verdict, or incomparable for a cost when
      the runs were not made under the same known conditions. */
  ghost predicate IsMetric(m: Metric, name: string, before: real, after: real, sameConditions: bool) {
    && m.before == before && m.after == after && m.delta == after - before
    && m.direction == MetricDirection(name) && m.family == MetricFamily(name)
    && if NamesCost(name) && !sameConditions then m.classification == Incomparable
       else IsVerdict(name, before, after, m.classification)
  }

  ghost predicate IsMetrics(row: Row, left: Case, right: Case, sameConditions: bool)
    requires row.Compared?
  {
    forall name ::
      && (name in row.metrics <==> name in left.metrics && left.metrics[name].Number?
                                   && name in right.metrics && right.metrics[name].Number?)
      && (name in row.metrics ==>
            IsMetric(row.metrics[name], name, left.metrics[name].value, right.metrics[name].value, sameConditions))
  }

  /** What the row of a case with one corpus entry in both runs says. */
  ghost predicate IsComparison(row: Row, left: Case, right: Case, sameConditions: bool) {
    && row.Compared? && row.id == left.id && IsMetrics(row, left, right, sameConditions)
    && IsStatus(row, Quality, row.status) && IsStatus(row, Context, row.context) && IsCostStatus(row, row.performance)
    && row.review == right.review && row.split == right.split
    && CompareLedgers(left.ledger, right.ledger) == Ok(row.transitions)
  }

  lemma MetricInRow(name: string, before: real, after: real, timings: bool)
    ensures IsMetric(GatedMetric(name, before, after, timings), name, before, after, timings)
  {
    MetricExactly(name, before, after);
    FamilyExactly(name);
    hide NamesCost, IsVerdict, MetricDirection, MetricFamily, CompareMetric, IsPlan, IsTier, NamesGain, Contains;
  }

  lemma ComparedExactly(left: Case, right: Case, timings: bool)
    ensures var r := CompareCases(left, right, timings);
            && (left.digest != right.digest ==> r == Ok(Skipped(left.id)))
            && (left.digest == right.digest && r.Ok? ==> IsComparison(r.value, left, right, timings))
            && (r.Err? <==> left.digest == right.digest && CompareLedgers(left.ledger, right.ledger).Err?)
  {
    StatusesExactly(left, right, timings);
    forall name | name in left.metrics && left.metrics[name].Number? && name in right.metrics && right.metrics[name].Number?
      ensures IsMetric(GatedMetric(name, left.metrics[name].value, right.metrics[name].value, timings), name,
                       left.metrics[name].value, right.metrics[name].value, timings)
    {
      MetricInRow(name, left.metrics[name].value, right.metrics[name].value, timings);
    }
    hide CompareLedgers, GatedMetric, IsMetric, IsStatus, IsCostStatus, ComparisonStatus, Classes, PerformanceStatus;
  }

  lemma CaseLookup(run: Run, id: string, c: Case)
    ensures IsCase(run, id, c) <==> id in CasesById(run.cases) && CasesById(run.cases)[id] == c
  {
    if IsCase(run, id, c) {
      var k :| 0 <= k < |run.cases| && run.cases[k] == c && c.id == id && forall j | k < j < |run.cases| :: run.cases[j].id != id;
      ListedCase(run.cases, k);
      var m := LatestCase(run.cases, id);
      assert k == m;
    }
    if id in CasesById(run.cases) { var m := LatestCase(run.cases, id); }
  }

  /** Each row of an accepted comparison: a case with the same corpus entry in both runs is compared exactly; one whose entry
      differs, or that is missing on one side, is skipped. */
  lemma RowsExactly(before: Run, after: Run, row: Row)
    requires ComparedRuns(before, after).Ok? && row in ComparedRuns(before, after).value.rows
    ensures forall left, right | IsCase(before, row.id, left) && IsCase(after, row.id, right) ::
              if left.digest == right.digest then IsComparison(row, left, right, SameConditions(before, after))
              else row == Skipped(row.id)
    ensures (forall left :: !IsCase(before, row.id, left)) || (forall right :: !IsCase(after, row.id, right)) ==>
              row == Skipped(row.id)
  {
    hide *;
    var id := RowFound(before, after, row);
    SameTimings(before, after);
    RowExactly(before, after, id, row, TimingsComparable(before, after));
  }

  lemma RowFound(before: Run, after: Run, row: Row) returns (id: string)
    requires ComparedRuns(before, after).Ok? && row in ComparedRuns(before, after).value.rows
    ensures RowFor(id, CasesById(before.cases), CasesById(after.cases), TimingsComparable(before, after)) == Ok(row)
    ensures row.id == id
  {
    var rows := ComparedRuns(before, after).value.rows;
    hide ComparedRuns, RowFor, CasesById, TimingsComparable, AllCountable, CaseIds, Sorted, IsIncomparable;
    ComparisonRows(before, after, rows);
    OneRowPerCase(before, after);
    var k :| 0 <= k < |rows| && rows[k] == row;
    id := Sorted(CaseIds(before, after))[k];
  }

  lemma SameTimings(before: Run, after: Run)
    ensures TimingsComparable(before, after) <==> SameConditions(before, after)
  {
    if TimingsComparable(before, after) {
      assert before.cachePolicy == Some(before.cachePolicy.value) && before.environment == Some(before.environment.value);
    }
  }

  lemma RowExactly(before: Run, after: Run, id: string, row: Row, timings: bool)
    requires RowFor(id, CasesById(before.cases), CasesById(after.cases), timings) == Ok(row)
    ensures forall left, right | IsCase(before, id, left) && IsCase(after, id, right) ::
              if left.digest == right.digest then IsComparison(row, left, right, timings) else row == Skipped(id)
    ensures (forall left :: !IsCase(before, id, left)) || (forall right :: !IsCase(after, id, right)) ==> row == Skipped(id)
  {
    var left, right := CasesById(before.cases), CasesById(after.cases);
    forall c
      ensures IsCase(before, id, c) <==> id in left && left[id] == c
      ensures IsCase(after, id, c) <==> id in right && right[id] == c
    {
      CaseLookup(before, id, c);
      CaseLookup(after, id, c);
    }
    hide IsCase, CompareCases, IsComparison;
    if id in left && id in right {
      assert IsCase(before, id, left[id]) && IsCase(after, id, right[id]);
      ComparedExactly(left[id], right[id], timings);
    }
  }

  // ----- counters

  lemma PerformanceStep(s: Summary, row: Row)
    requires Countable(row)
    ensures var t := Count(s, row);
            && t.performance.changed == s.performance.changed + (if row.Compared? && row.performance == Changed then 1 else 0)
            && t.performance.same == s.performance.same + (if row.Compared? && row.performance == Unchanged then 1 else 0)
            && t.performance.incomparable
               == s.performance.incomparable + (if row.Compared? && row.performance == Incomparable then 1 else 0)
            && t.incomparable == s.incomparable + if row.Skipped? then 1 else 0
  {}

  /** The performance counters and the counter of incomparable cases hold exactly the number of rows that belong in them. */
  lemma {:induction false} PerformanceCellsCount(rows: seq<Row>)
    requires AllCountable(rows)
    ensures var s := Summarise(rows);
            && s.performance.changed == CountRows(rows, (row: Row) => row.Compared? && row.performance == Changed)
            && s.performance.same == CountRows(rows, (row: Row) => row.Compared? && row.performance == Unchanged)
            && s.performance.incomparable == CountRows(rows, (row: Row) => row.Compared? && row.performance == Incomparable)
            && s.incomparable == CountRows(rows, (row: Row) => row.Skipped?)
  {
    if rows != [] {
      var n := |rows| - 1;
      PerformanceCellsCount(rows[..n]);
      PerformanceStep(Summarise(rows[..n]), rows[n]);
      hide Count;
    }
  }
}
