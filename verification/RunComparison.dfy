/** Comparing two evaluation runs, case by case and metric by metric. Metric values are reals. */
module RunComparison {
  import opened Prelude
  import opened Ordering

  // ----- metrics

  datatype Class = Improved | Regressed | Changed | Unchanged | Incomparable

  datatype Direction = Higher | Lower | Undirected

  datatype Family = Quality | Context | Performance | Scale

  /** `token in name`. */
  predicate HasToken(name: string, token: string) {
    StartsWith(name, token) || (name != [] && HasToken(name[1..], token))
  }

  predicate HasAny(name: string, tokens: seq<string>) {
    exists t | t in tokens :: HasToken(name, t)
  }

  const PLAN_METRICS := ["act_preview_available", "plan_acceptance_coverage", "plan_executable_fraction",
                         "plan_generation_success"]
  const TIERS := ["all", "candidate", "direct", "observed_asserted"]
  const GAINS := ["recall", "mrr", "precision", "accuracy", "satisfied"]
  const LOSSES := ["distractor", "duration", "false_findings", "rss"]
  const COSTS := ["duration", "rss"]

  predicate IsTierMetric(name: string) {
    exists t | t in TIERS :: StartsWith(name, "relevant_test_" + t + "_")
  }

  function MetricDirection(name: string): Direction {
    if name in PLAN_METRICS then Higher
    else if IsTierMetric(name) then Undirected
    else if HasAny(name, GAINS) then Higher
    else if HasAny(name, LOSSES) then Lower
    else Undirected
  }

  function MetricFamily(name: string): Family {
    if name in PLAN_METRICS then Quality
    else if HasAny(name, COSTS) then Performance
    else if IsTierMetric(name) then Scale
    else if HasToken(name, "distractor") then Context
    else if HasToken(name, "false_findings") then Quality
    else if HasAny(name, GAINS) then Quality
    else Scale
  }

  function Abs(x: real): real { if x < 0.0 then -x else x }

  function Max(x: real, y: real): real { if x < y then y else x }

  const TINY := 1.0 / 1_000_000_000_000.0

  function Tolerance(name: string, before: real): real {
    if HasAny(name, COSTS) then Max(Abs(before) * 0.05, 0.001) else TINY
  }

  datatype Metric = Metric(before: real, after: real, classification: Class, delta: real, direction: Direction,
                           family: Family, tolerance: real)

  function Classify(family: Family, direction: Direction, delta: real, tolerance: real): Class {
    var still := if Abs(delta) <= tolerance then Unchanged else Changed;
    if family == Performance || direction == Undirected || still == Unchanged then still
    else if (direction == Higher && delta > 0.0) || (direction == Lower && delta < 0.0) then Improved
    else Regressed
  }

  function CompareMetric(name: string, before: real, after: real): Metric {
    var delta, direction := after - before, MetricDirection(name);
    var family, tolerance := MetricFamily(name), Tolerance(name, before);
    Metric(before, after, Classify(family, direction, delta, tolerance), delta, direction, family, tolerance)
  }

  function ComparisonStatus(classes: set<Class>): (r: Class)
    ensures r != Incomparable
  {
    if Regressed in classes then Regressed
    else if Improved in classes then Improved
    else if Changed in classes then Changed
    else Unchanged
  }

  // ----- ledgers

  /** A stored ledger row; anything that is not an identity with a cause is `BadRow`. */
  datatype StoredRow = BadRow | StoredRow(identity: string, cause: string)

  /** The row lists of a ledger, `None` where the value is not a list. */
  datatype StoredLedger = StoredLedger(contract: string, topK: Option<int>, files: Option<seq<StoredRow>>,
                                       symbols: Option<seq<StoredRow>>, tests: Option<seq<StoredRow>>)

  datatype Kind = Files | Symbols | Tests

  datatype Transition = Transition(kind: Kind, identity: string, before: string, after: string, classification: Class)

  datatype CompareError = RowsInvalid | RowInvalid | IdentitiesDiffer

  const TERMINAL_CAUSES := "terminal-cause-v1"

  /** The dictionary of well-formed rows; a later row replaces an earlier one. */
  function CauseMap(rows: seq<StoredRow>): map<string, string> {
    if rows == [] then map[] else
      var last := rows[|rows| - 1];
      var before := CauseMap(rows[..|rows| - 1]);
      if last.BadRow? then before else before[last.identity := last.cause]
  }

  function TransitionOf(kind: Kind, left: map<string, string>, right: map<string, string>, identity: string): Transition
    requires identity in left && identity in right
  {
    var before, after := left[identity], right[identity];
    Transition(kind, identity, before, after, if before == after then Unchanged else Changed)
  }

  function TransitionsOver(kind: Kind, left: map<string, string>, right: map<string, string>, ids: seq<string>)
    : (r: seq<Transition>)
    requires forall id | id in ids :: id in left && id in right
    ensures |r| == |ids|
    ensures forall k | 0 <= k < |ids| :: r[k] == TransitionOf(kind, left, right, ids[k])
  {
    seq(|ids|, k requires 0 <= k < |ids| => TransitionOf(kind, left, right, ids[k]))
  }

  function CompareKind(kind: Kind, before: Option<seq<StoredRow>>, after: Option<seq<StoredRow>>)
    : Result<seq<Transition>, CompareError>
  {
    if before.None? || after.None? then Err(RowsInvalid) else
      var left, right := CauseMap(before.value), CauseMap(after.value);
      if |left| != |before.value| || |right| != |after.value| then Err(RowInvalid)
      else if left.Keys != right.Keys then Err(IdentitiesDiffer)
      else
        assert forall id | id in Sorted(left.Keys) :: id in Elements(Sorted(left.Keys));
        Ok(TransitionsOver(kind, left, right, Sorted(left.Keys)))
  }

  predicate LedgersComparable(before: StoredLedger, after: StoredLedger) {
    before.contract == TERMINAL_CAUSES && after.contract == TERMINAL_CAUSES && before.topK == after.topK
  }

  function CompareLedgers(before: Option<StoredLedger>, after: Option<StoredLedger>): Result<seq<Transition>, CompareError> {
    if before.None? || after.None? || !LedgersComparable(before.value, after.value) then Ok([]) else
      var files :- CompareKind(Files, before.value.files, after.value.files);
      var symbols :- CompareKind(Symbols, before.value.symbols, after.value.symbols);
      var tests :- CompareKind(Tests, before.value.tests, after.value.tests);
      Ok(files + symbols + tests)
  }

  // ----- cases

  datatype MetricValue = Number(value: real) | NotANumber

  datatype Split = Development | Validation | HeldOut

  datatype Review = Candidate | Reviewed

  datatype Case = Case(id: string, digest: string, metrics: map<string, MetricValue>, review: Review, split: Split,
                       ledger: Option<StoredLedger>)

  /** A run as read back: its cases and what decides whether its timings can be compared. */
  datatype Run = Run(cases: seq<Case>, cachePolicy: Option<string>, environment: Option<string>)

  datatype Row = Skipped(id: string)
               | Compared(id: string, metrics: map<string, Metric>, context: Class, performance: Class, review: Review,
                          transitions: seq<Transition>, split: Split, status: Class)

  function CasesById(cases: seq<Case>): (r: map<string, Case>)
    ensures forall id | id in r :: r[id].id == id
  {
    if cases == [] then map[]
    else CasesById(cases[..|cases| - 1])[cases[|cases| - 1].id := cases[|cases| - 1]]
  }

  /** Timings compare only under the same known cache policy and the same known environment. */
  predicate TimingsComparable(before: Run, after: Run) {
    && before.cachePolicy.Some? && before.cachePolicy == after.cachePolicy
    && before.environment.Some? && before.environment == after.environment
  }

  function GatedMetric(name: string, before: real, after: real, timings: bool): Metric {
    var m := CompareMetric(name, before, after);
    if m.family == Performance && !timings then m.(classification := Incomparable) else m
  }

  /** The metrics that are numbers on both sides. */
  function Metrics(left: map<string, MetricValue>, right: map<string, MetricValue>, timings: bool): map<string, Metric> {
    map name | name in left && name in right && left[name].Number? && right[name].Number? ::
      GatedMetric(name, left[name].value, right[name].value, timings)
  }

  function Classes(metrics: map<string, Metric>, family: Family): set<Class> {
    set name | name in metrics && metrics[name].family == family :: metrics[name].classification
  }

  function PerformanceStatus(classes: set<Class>): (r: Class)
    ensures r in {Incomparable, Changed, Unchanged}
  {
    if Incomparable in classes then Incomparable else if Changed in classes then Changed else Unchanged
  }

  function CompareCases(left: Case, right: Case, timings: bool): Result<Row, CompareError> {
    if left.digest != right.digest then Ok(Skipped(left.id)) else
      var metrics := Metrics(left.metrics, right.metrics, timings);
      var transitions :- CompareLedgers(left.ledger, right.ledger);
      Ok(Compared(left.id, metrics, ComparisonStatus(Classes(metrics, Context)),
                  PerformanceStatus(Classes(metrics, Performance)), right.review, transitions, right.split,
                  ComparisonStatus(Classes(metrics, Quality))))
  }

  function RowFor(id: string, before: map<string, Case>, after: map<string, Case>, timings: bool): Result<Row, CompareError> {
    if id in before && id in after then CompareCases(before[id], after[id], timings) else Ok(Skipped(id))
  }

  // ----- the summary tables

  datatype Table = Table(changed: nat, improved: nat, regressed: nat, same: nat)

  datatype PerformanceTable = PerformanceTable(changed: nat, incomparable: nat, same: nat)

  datatype ByReview = ByReview(candidate: Table, reviewed: Table) {
    function At(review: Review): Table {
      if review == Candidate then candidate else reviewed
    }
  }

  datatype BySplit = BySplit(development: Table, validation: Table, heldOut: Table) {
    function At(split: Split): Table {
      match split
      case Development => development
      case Validation => validation
      case HeldOut => heldOut
    }
  }

  datatype Summary = Summary(quality: ByReview, context: ByReview, qualityBySplit: BySplit, contextBySplit: BySplit,
                             performance: PerformanceTable, incomparable: nat)

  const NO_CASES := Table(0, 0, 0, 0)
  const BY_REVIEW := ByReview(NO_CASES, NO_CASES)
  const BY_SPLIT := BySplit(NO_CASES, NO_CASES, NO_CASES)
  const EMPTY_SUMMARY := Summary(BY_REVIEW, BY_REVIEW, BY_SPLIT, BY_SPLIT, PerformanceTable(0, 0, 0), 0)

  function Bump(t: Table, c: Class): Table
    requires c != Incomparable
  {
    match c
    case Changed => t.(changed := t.changed + 1)
    case Improved => t.(improved := t.improved + 1)
    case Regressed => t.(regressed := t.regressed + 1)
    case Unchanged => t.(same := t.same + 1)
  }

  function BumpReview(t: ByReview, review: Review, c: Class): ByReview
    requires c != Incomparable
  {
    if review == Candidate then t.(candidate := Bump(t.candidate, c)) else t.(reviewed := Bump(t.reviewed, c))
  }

  function BumpSplit(t: BySplit, split: Split, c: Class): BySplit
    requires c != Incomparable
  {
    match split
    case Development => t.(development := Bump(t.development, c))
    case Validation => t.(validation := Bump(t.validation, c))
    case HeldOut => t.(heldOut := Bump(t.heldOut, c))
  }

  function BumpPerformance(t: PerformanceTable, c: Class): PerformanceTable
    requires c in {Incomparable, Changed, Unchanged}
  {
    match c
    case Changed => t.(changed := t.changed + 1)
    case Incomparable => t.(incomparable := t.incomparable + 1)
    case Unchanged => t.(same := t.same + 1)
  }

  /** A row whose statuses have a counter. */
  predicate Countable(row: Row) {
    row.Compared? ==>
      row.status != Incomparable && row.context != Incomparable && row.performance in {Incomparable, Changed, Unchanged}
  }

  function Count(s: Summary, row: Row): Summary
    requires Countable(row)
  {
    match row
    case Skipped(_) => s.(incomparable := s.incomparable + 1)
    case Compared(_, _, context, performance, review, _, split, status) =>
      Summary(BumpReview(s.quality, review, status), BumpReview(s.context, review, context),
              BumpSplit(s.qualityBySplit, split, status), BumpSplit(s.contextBySplit, split, context),
              BumpPerformance(s.performance, performance), s.incomparable)
  }

  ghost predicate AllCountable(rows: seq<Row>) {
    forall k | 0 <= k < |rows| :: Countable(rows[k])
  }

  function Summarise(rows: seq<Row>): Summary
    requires AllCountable(rows)
  {
    if rows == [] then EMPTY_SUMMARY else Count(Summarise(rows[..|rows| - 1]), rows[|rows| - 1])
  }

  // ----- whole runs

  datatype Comparison = Comparison(rows: seq<Row>, summary: Summary)

  /** The rows of the listed cases in order, or the first error. */
  function RowsFor(ids: seq<string>, before: map<string, Case>, after: map<string, Case>, timings: bool)
    : (r: Result<seq<Row>, CompareError>)
    ensures r.Ok? ==> AllCountable(r.value) && |r.value| == |ids|
    ensures r.Ok? ==> forall k | 0 <= k < |ids| :: RowFor(ids[k], before, after, timings) == Ok(r.value[k])
  {
    if ids == [] then Ok([]) else
      var rows :- RowsFor(ids[..|ids| - 1], before, after, timings);
      var row :- RowFor(ids[|ids| - 1], before, after, timings);
      Ok(rows + [row])
  }

  function CaseIds(before: Run, after: Run): set<string> {
    CasesById(before.cases).Keys + CasesById(after.cases).Keys
  }

  function ComparedRuns(before: Run, after: Run): Result<Comparison, CompareError> {
    var rows :- RowsFor(Sorted(CaseIds(before, after)), CasesById(before.cases), CasesById(after.cases),
                        TimingsComparable(before, after));
    Ok(Comparison(rows, Summarise(rows)))
  }

  /** The dictionary comprehension over a run's cases. */
  method IndexCases(cases: seq<Case>) returns (byId: map<string, Case>)
    ensures byId == CasesById(cases)
  {
    byId := map[];
    for i := 0 to |cases|
      invariant byId == CasesById(cases[..i])
    {
      byId := byId[cases[i].id := cases[i]];
      assert cases[..i + 1][..i] == cases[..i];
    }
    assert cases[..|cases|] == cases;
  }

  method CollectMetrics(left: map<string, MetricValue>, right: map<string, MetricValue>, timings: bool)
    returns (metrics: map<string, Metric>)
    ensures metrics == Metrics(left, right, timings)
  {
    var names := Sorted(left.Keys * right.Keys);
    assert forall n :: n in names <==> n in Elements(names);
    metrics := map[];
    for i := 0 to |names|
      invariant forall n :: n in metrics <==>
                  n in names[..i] && n in left && n in right && left[n].Number? && right[n].Number?
      invariant forall n | n in metrics :: metrics[n] == GatedMetric(n, left[n].value, right[n].value, timings)
    {
      var name := names[i];
      assert name in names;
      assert forall n :: n in names[..i + 1] <==> n in names[..i] || n == name;
      if left[name].Number? && right[name].Number? {
        var metric := CompareMetric(name, left[name].value, right[name].value);
        if metric.family == Performance && !timings {
          metric := metric.(classification := Incomparable);
        }
        metrics := metrics[name := metric];
      }
    }
    assert names[..|names|] == names;
  }

  lemma RowsStep(ids: seq<string>, i: nat, before: map<string, Case>, after: map<string, Case>, timings: bool)
    requires i < |ids|
    ensures var rows, row := RowsFor(ids[..i], before, after, timings), RowFor(ids[i], before, after, timings);
            && (row.Ok? ==> Countable(row.value))
            && (rows.Ok? && row.Ok? ==> RowsFor(ids[..i + 1], before, after, timings) == Ok(rows.value + [row.value]))
            && (rows.Ok? && row.Err? ==> RowsFor(ids[..i + 1], before, after, timings) == Err(row.error))
  {
    assert ids[..i + 1][..i] == ids[..i];
  }

  lemma NothingYet(ids: seq<string>, before: map<string, Case>, after: map<string, Case>, timings: bool)
    ensures RowsFor(ids[..0], before, after, timings) == Ok([])
    ensures AllCountable([]) && Summarise([]) == EMPTY_SUMMARY
  {}

  /** The first error is final. */
  lemma {:induction false} RowsFail(ids: seq<string>, i: nat, before: map<string, Case>, after: map<string, Case>, timings: bool)
    requires i <= |ids| && RowsFor(ids[..i], before, after, timings).Err?
    ensures RowsFor(ids, before, after, timings) == Err(RowsFor(ids[..i], before, after, timings).error)
    decreases |ids| - i
  {
    if i < |ids| {
      assert ids[..i + 1][..i] == ids[..i];
      RowsFail(ids, i + 1, before, after, timings);
    } else {
      assert ids[..i] == ids;
    }
  }

  /** One case present in both runs. */
  method CompareCase(left: Case, right: Case, timings: bool) returns (r: Result<Row, CompareError>)
    ensures r == CompareCases(left, right, timings)
  {
    if left.digest != right.digest {
      return Ok(Skipped(left.id));
    }
    var metrics := CollectMetrics(left.metrics, right.metrics, timings);
    var transitions := CompareLedgers(left.ledger, right.ledger);
    if transitions.Err? {
      return Err(transitions.error);
    }
    return Ok(Compared(left.id, metrics, ComparisonStatus(Classes(metrics, Context)),
                       PerformanceStatus(Classes(metrics, Performance)), right.review, transitions.value, right.split,
                       ComparisonStatus(Classes(metrics, Quality))));
  }

  lemma SummariseStep(rows: seq<Row>, row: Row)
    requires AllCountable(rows) && Countable(row)
    ensures AllCountable(rows + [row]) && Summarise(rows + [row]) == Count(Summarise(rows), row)
  {
    assert (rows + [row])[..|rows|] == rows;
  }

  method CompareRuns(before: Run, after: Run) returns (r: Result<Comparison, CompareError>)
    ensures r == ComparedRuns(before, after)
  {
    hide CompareCases, CasesById, Count, Summarise, RowsFor, AllCountable, Countable, Sorted, TimingsComparable, EMPTY_SUMMARY;
    var timings := TimingsComparable(before, after);
    var left := IndexCases(before.cases);
    var right := IndexCases(after.cases);
    var ids := Sorted(left.Keys + right.Keys);
    var rows: seq<Row> := [];
    var summary := EMPTY_SUMMARY;
    NothingYet(ids, left, right, timings);
    for i := 0 to |ids|
      invariant RowsFor(ids[..i], left, right, timings) == Ok(rows)
      invariant AllCountable(rows)
      invariant summary == Summarise(rows)
    {
      RowsStep(ids, i, left, right, timings);
      var id := ids[i];
      var row := Skipped(id);
      if id in left && id in right {
        var compared := CompareCase(left[id], right[id], timings);
        if compared.Err? {
          RowsFail(ids, i + 1, left, right, timings);
          return Err(compared.error);
        }
        row := compared.value;
      }
      SummariseStep(rows, row);
      summary := Count(summary, row);
      rows := rows + [row];
    }
    assert ids[..|ids|] == ids;
    return Ok(Comparison(rows, summary));
  }
}
