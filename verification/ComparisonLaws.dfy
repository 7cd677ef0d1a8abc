/** Laws of run comparison: what swapping the runs does, what a run compared with itself shows, and that every case is
    counted once in every table. */
module ComparisonLaws {
  import opened Prelude
  import opened Ordering
  import opened RunComparison

  // ----- swapping one metric

  function Mirror(c: Class): Class {
    match c
    case Improved => Regressed
    case Regressed => Improved
    case _ => c
  }

  function MirrorMetric(m: Metric): Metric {
    Metric(m.after, m.before, Mirror(m.classification), -m.delta, m.direction, m.family, m.tolerance)
  }

  /** A token's letters occur in the name, and so does its first pair of letters. */
  lemma {:induction false} TokenLetters(name: string, token: string)
    requires HasToken(name, token)
    ensures forall k | 0 <= k < |token| :: token[k] in name
    ensures |token| > 1 ==> exists i :: 0 <= i < |name| - 1 && name[i] == token[0] && name[i + 1] == token[1]
  {
    if StartsWith(name, token) {
      assert forall k | 0 <= k < |token| :: token[k] == name[k];
    } else {
      TokenLetters(name[1..], token);
      if |token| > 1 {
        var i :| 0 <= i < |name[1..]| - 1 && name[1..][i] == token[0] && name[1..][i + 1] == token[1];
        assert name[i + 1] == token[0] && name[i + 1 + 1] == token[1];
      }
    }
  }

  predicate HasPair(name: string, a: char, b: char) {
    exists i :: 0 <= i < |name| - 1 && name[i] == a && name[i + 1] == b
  }

  lemma FirstLetter(name: string, token: string, c: char)
    requires HasToken(name, token) && token != "" && token[0] == c
    ensures c in name
  {
    TokenLetters(name, token);
  }

  lemma NoSize(name: string)
    requires !HasPair(name, 'r', 's')
    ensures !HasToken(name, "rss")
  {
    if HasToken(name, "rss") {
      TokenLetters(name, "rss");
      assert HasPair(name, 'r', 's');
    }
  }

  lemma PlanLetters(name: string)
    requires name in PLAN_METRICS
    ensures 'd' !in name && (name == "plan_generation_success" || 's' !in name)
  {}

  lemma SuccessHasNoPair()
    ensures !HasPair("plan_generation_success", 'r', 's')
  {}

  lemma NoDuration(name: string)
    requires 'd' !in name
    ensures !HasToken(name, "duration")
  {
    if HasToken(name, "duration") { FirstLetter(name, "duration", 'd'); }
  }

  lemma PlanHasNoPair(name: string)
    requires name in PLAN_METRICS
    ensures !HasPair(name, 'r', 's')
  {
    PlanLetters(name);
    SuccessHasNoPair();
    hide PLAN_METRICS;
  }

  lemma NoCosts(name: string)
    requires !HasToken(name, "duration") && !HasToken(name, "rss")
    ensures !HasAny(name, COSTS)
  {
    hide HasToken;
  }

  /** No plan metric names a duration or a size, so a metric outside the performance family has the fixed tolerance. */
  lemma PlanMetricsHaveNoCost(name: string)
    requires name in PLAN_METRICS
    ensures !HasAny(name, COSTS)
  {
    hide HasToken, HasPair, HasAny, COSTS;
    PlanLetters(name);
    PlanHasNoPair(name);
    hide PLAN_METRICS;
    NoDuration(name);
    NoSize(name);
    NoCosts(name);
  }

  /** Outside the performance family, swapping the runs exchanges improved and regressed. */
  lemma MetricSwaps(name: string, before: real, after: real)
    requires MetricFamily(name) != Performance
    ensures CompareMetric(name, after, before) == MirrorMetric(CompareMetric(name, before, after))
  {
    if name in PLAN_METRICS { PlanMetricsHaveNoCost(name); }
    hide HasAny, HasToken, IsTierMetric, MetricDirection;
  }

  /** The tolerance of a cost. */
  function CostTolerance(before: real): real {
    Max(Abs(before) * 0.05, 0.001)
  }

  /** Larger is better. */
  predicate IsGain(name: string) {
    name in PLAN_METRICS || (!IsTierMetric(name) && HasAny(name, GAINS))
  }

  /** Smaller is better. */
  predicate IsLoss(name: string) {
    !IsGain(name) && !IsTierMetric(name) && HasAny(name, LOSSES)
  }

  /** What each verdict means in terms of the two values. */
  lemma MetricVerdicts(name: string, before: real, after: real)
    ensures var m, cost := CompareMetric(name, before, after), MetricFamily(name) == Performance;
            && m.delta == after - before && m.before == before && m.after == after
            && (m.classification == Improved <==>
                !cost && ((IsGain(name) && after > before + TINY) || (IsLoss(name) && after + TINY < before)))
            && (m.classification == Regressed <==>
                !cost && ((IsGain(name) && after + TINY < before) || (IsLoss(name) && after > before + TINY)))
            && (m.classification == Unchanged <==>
                before - after <= m.tolerance && after - before <= m.tolerance)
            && m.tolerance == (if cost then CostTolerance(before) else TINY)
            && m.classification != Incomparable
  {
    if name in PLAN_METRICS { PlanMetricsHaveNoCost(name); }
    hide HasAny, HasToken, IsTierMetric;
  }

  /** A cost is judged against its first value, so swapping the runs keeps the verdict exactly when the difference is not
      between the two tolerances. */
  lemma PerformanceSwapsExactly(name: string, before: real, after: real)
    requires MetricFamily(name) == Performance
    ensures var d, lo, hi := Abs(after - before), CostTolerance(before), CostTolerance(after);
            CompareMetric(name, after, before).classification == CompareMetric(name, before, after).classification <==>
            !(lo < d <= hi || hi < d <= lo)
    ensures CompareMetric(name, before, after).classification in {Changed, Unchanged}
  {
    hide HasToken, IsTierMetric, MetricDirection;
  }

  lemma DurationIsCost()
    ensures HasToken("duration", "duration") && MetricFamily("duration") == Performance
  {
    assert StartsWith("duration", "duration");
    var tokens := COSTS;
    assert "duration" == tokens[0] && "duration" in tokens;
    assert |"duration"| == 8;
    forall m | m in PLAN_METRICS ensures |m| != 8 {}
  }

  /** A duration of 1.0 that becomes 1.052 has changed; one of 1.052 that becomes 1.0 has not. */
  lemma PerformanceIsAsymmetric()
    ensures CompareMetric("duration", 1.0, 1.052).classification == Changed
    ensures CompareMetric("duration", 1.052, 1.0).classification == Unchanged
  {
    DurationIsCost();
    hide HasToken, IsTierMetric, MetricDirection, MetricFamily;
    assert HasAny("duration", COSTS) by {
      var tokens := COSTS;
      assert tokens[0] in tokens;
    }
  }

  // ----- swapping a status

  function MirrorClasses(classes: set<Class>): set<Class> {
    set c | c in classes :: Mirror(c)
  }

  predicate Mixed(classes: set<Class>) {
    Improved in classes && Regressed in classes
  }

  /** A status is mirrored exactly when the metrics do not both improve and regress; when they do, both statuses are
      `regressed`. */
  lemma StatusSwaps(classes: set<Class>)
    ensures ComparisonStatus(MirrorClasses(classes)) == Mirror(ComparisonStatus(classes)) <==> !Mixed(classes)
    ensures Mixed(classes) ==> ComparisonStatus(MirrorClasses(classes)) == Regressed == ComparisonStatus(classes)
  {
    var mirrored := MirrorClasses(classes);
    forall c ensures c in mirrored <==> Mirror(c) in classes {
      assert Mirror(Mirror(c)) == c;
    }
    assert Mirror(Improved) == Regressed && Mirror(Regressed) == Improved && Mirror(Changed) == Changed;
  }

  lemma ClassesSwap(left: map<string, MetricValue>, right: map<string, MetricValue>, timings: bool, family: Family)
    requires family != Performance
    ensures Classes(Metrics(right, left, timings), family) == MirrorClasses(Classes(Metrics(left, right, timings), family))
  {
    hide MetricFamily, MetricDirection, Tolerance, Classify;
    var a, b := Metrics(left, right, timings), Metrics(right, left, timings);
    forall name | name in a && a[name].family == family
      ensures b[name].family == family && b[name].classification == Mirror(a[name].classification)
    {
      MetricSwaps(name, left[name].value, right[name].value);
    }
    assert forall name | name in b :: name in a && b[name].family == a[name].family;
    forall c ensures c in Classes(b, family) <==> c in MirrorClasses(Classes(a, family)) {
      if c in Classes(b, family) {
        var name :| name in b && b[name].family == family && b[name].classification == c;
        assert a[name].classification in Classes(a, family);
      }
      if c in MirrorClasses(Classes(a, family)) {
        var d :| d in Classes(a, family) && c == Mirror(d);
        var name :| name in a && a[name].family == family && a[name].classification == d;
        assert b[name].classification == c;
      }
    }
  }

  lemma PlainQuality(name: string)
    requires name == "mrr" || name == "recall"
    ensures MetricFamily(name) == Quality && MetricDirection(name) == Higher && !HasAny(name, COSTS)
  {
    assert HasAny(name, GAINS) by {
      var tokens := GAINS;
      assert tokens[0] == "recall" && tokens[1] == "mrr" && name in tokens;
      assert StartsWith(name, name);
      assert HasToken(name, name);
    }
    if HasToken(name, "duration") { FirstLetter(name, "duration", 'd'); }
    NoSize(name);
    if HasToken(name, "distractor") { FirstLetter(name, "distractor", 'd'); }
    if HasToken(name, "false_findings") { FirstLetter(name, "false_findings", 'f'); }
    forall t | t in TIERS ensures !StartsWith(name, "relevant_test_" + t + "_") {
      assert |"relevant_test_" + t + "_"| > 6;
    }
    hide HasToken;
  }

  const ONE_UP := map["mrr" := Number(0.0), "recall" := Number(1.0)]
  const OTHER_UP := map["mrr" := Number(1.0), "recall" := Number(0.0)]

  /** One metric improves while another regresses: the status is `regressed` whichever run comes first. */
  lemma MixedStatusStays()
    ensures ComparisonStatus(Classes(Metrics(ONE_UP, OTHER_UP, true), Quality)) == Regressed
    ensures ComparisonStatus(Classes(Metrics(OTHER_UP, ONE_UP, true), Quality)) == Regressed
  {
    PlainQuality("mrr");
    PlainQuality("recall");
    hide MetricFamily, MetricDirection, HasAny;
    var m, w := Metrics(ONE_UP, OTHER_UP, true), Metrics(OTHER_UP, ONE_UP, true);
    assert "recall" in m && m["recall"].classification == Regressed;
    assert "mrr" in w && w["mrr"].classification == Regressed;
    assert Regressed in Classes(m, Quality) && Regressed in Classes(w, Quality);
  }

  // ----- ledgers

  function MirrorTransition(t: Transition): Transition {
    t.(before := t.after, after := t.before)
  }

  /** Row by row, the same transitions read backwards. */
  ghost predicate Backwards(a: seq<Transition>, b: seq<Transition>) {
    |a| == |b| && forall k | 0 <= k < |a| :: b[k] == MirrorTransition(a[k])
  }

  lemma KindSwaps(kind: Kind, before: Option<seq<StoredRow>>, after: Option<seq<StoredRow>>)
    ensures var a, b := CompareKind(kind, before, after), CompareKind(kind, after, before);
            if a.Ok? then b.Ok? && Backwards(a.value, b.value) else a == b
  {
    hide CauseMap;
  }

  lemma LedgersSwap(before: Option<StoredLedger>, after: Option<StoredLedger>)
    ensures var a, b := CompareLedgers(before, after), CompareLedgers(after, before);
            if a.Ok? then b.Ok? && Backwards(a.value, b.value) else a == b
  {
    if before.Some? && after.Some? && LedgersComparable(before.value, after.value) {
      var (left, right) := (before.value, after.value);
      KindSwaps(Files, left.files, right.files);
      KindSwaps(Symbols, left.symbols, right.symbols);
      KindSwaps(Tests, left.tests, right.tests);
      hide CompareKind, Backwards;
      if CompareLedgers(before, after).Ok? {
        var f, y := CompareKind(Files, left.files, right.files), CompareKind(Symbols, left.symbols, right.symbols);
        var g, z := CompareKind(Files, right.files, left.files), CompareKind(Symbols, right.symbols, left.symbols);
        BackwardsConcat(f.value, y.value, g.value, z.value);
        BackwardsConcat(f.value + y.value, CompareKind(Tests, left.tests, right.tests).value, g.value + z.value,
                        CompareKind(Tests, right.tests, left.tests).value);
      }
    }
  }

  lemma BackwardsConcat(a: seq<Transition>, c: seq<Transition>, b: seq<Transition>, d: seq<Transition>)
    requires Backwards(a, b) && Backwards(c, d)
    ensures Backwards(a + c, b + d)
  {}

  lemma {:induction false} CauseMapSize(rows: seq<StoredRow>)
    ensures |CauseMap(rows)| <= |rows|
    ensures forall id :: id in CauseMap(rows) <==> exists k :: 0 <= k < |rows| && rows[k].StoredRow? && rows[k].identity == id
    ensures |CauseMap(rows)| == |rows| <==> WellFormed(rows)
  {
    if rows == [] {
    } else {
      var init, last := rows[..|rows| - 1], rows[|rows| - 1];
      CauseMapSize(init);
      var m := CauseMap(init);
      assert rows == init + [last];
      WellFormedStep(init, last);
      if last.StoredRow? {
        assert rows[|rows| - 1].identity == last.identity;
        if last.identity in m {
          assert m[last.identity := last.cause].Keys == m.Keys;
        } else {
          assert m[last.identity := last.cause].Keys == m.Keys + {last.identity};
        }
      }
    }
  }

  /** Every row has an identity and a cause, and no identity is repeated. */
  ghost predicate WellFormed(rows: seq<StoredRow>) {
    && (forall k | 0 <= k < |rows| :: rows[k].StoredRow?)
    && forall j, k | 0 <= j < k < |rows| :: rows[j].identity != rows[k].identity
  }

  ghost predicate Identified(rows: seq<StoredRow>, id: string) {
    exists k :: 0 <= k < |rows| && rows[k].StoredRow? && rows[k].identity == id
  }

  lemma WellFormedStep(rows: seq<StoredRow>, last: StoredRow)
    ensures WellFormed(rows + [last]) <==> WellFormed(rows) && last.StoredRow? && !Identified(rows, last.identity)
  {
    var longer := rows + [last];
    if WellFormed(longer) {
      assert longer[|rows|] == last;
      assert forall k | 0 <= k < |rows| :: longer[k] == rows[k];
    }
  }

  /** Two row lists are accepted exactly when both are well formed lists over the same identities. */
  lemma KindComparesExactly(kind: Kind, before: Option<seq<StoredRow>>, after: Option<seq<StoredRow>>)
    ensures CompareKind(kind, before, after).Ok? <==>
              && before.Some? && after.Some? && WellFormed(before.value) && WellFormed(after.value)
              && forall id :: Identified(before.value, id) <==> Identified(after.value, id)
  {
    if before.Some? && after.Some? {
      CauseMapSize(before.value);
      CauseMapSize(after.value);
      var left, right := CauseMap(before.value), CauseMap(after.value);
      hide WellFormed, CauseMap;
      assert forall id :: id in left.Keys <==> Identified(before.value, id);
      assert forall id :: id in right.Keys <==> Identified(after.value, id);
      if forall id :: Identified(before.value, id) <==> Identified(after.value, id) {
        assert left.Keys == right.Keys;
      }
    }
  }

  // ----- swapping rows and runs

  ghost predicate MixedIn(row: Row, family: Family)
    requires row.Compared?
  {
    Mixed(Classes(row.metrics, family))
  }

  /** Statuses are mirrored unless the metrics both improve and regress: then both are `regressed`. */
  predicate TurnsStatus(a: Class, b: Class, mixed: bool) {
    if mixed then a == b == Regressed else b == Mirror(a)
  }

  /** The same case seen from the other side. */
  ghost predicate MirrorRow(a: Row, b: Row) {
    if a.Skipped? then a == b else
      && b.Compared? && a.id == b.id && a.metrics.Keys == b.metrics.Keys
      && (forall name | name in a.metrics && a.metrics[name].family != Performance ::
            b.metrics[name] == MirrorMetric(a.metrics[name]))
      && TurnsStatus(a.status, b.status, MixedIn(a, Quality)) && TurnsStatus(a.context, b.context, MixedIn(a, Context))
      && Backwards(a.transitions, b.transitions)
  }

  lemma CasesSwap(left: Case, right: Case, timings: bool)
    requires left.id == right.id
    ensures var a, b := CompareCases(left, right, timings), CompareCases(right, left, timings);
            if a.Ok? then b.Ok? && MirrorRow(a.value, b.value) else a == b
  {
    hide Metrics, CompareLedgers, Backwards, ComparisonStatus, Classes, MirrorClasses, Mixed, Mirror, MirrorMetric,
         PerformanceStatus;
    LedgersSwap(left.ledger, right.ledger);
    if left.digest == right.digest {
      var metrics, swapped := Metrics(left.metrics, right.metrics, timings), Metrics(right.metrics, left.metrics, timings);
      MetricsSwap(left.metrics, right.metrics, timings);
      ClassesSwap(left.metrics, right.metrics, timings, Quality);
      ClassesSwap(left.metrics, right.metrics, timings, Context);
      StatusSwaps(Classes(metrics, Quality));
      StatusSwaps(Classes(metrics, Context));
    }
  }

  lemma MetricsSwap(left: map<string, MetricValue>, right: map<string, MetricValue>, timings: bool)
    ensures var a, b := Metrics(left, right, timings), Metrics(right, left, timings);
            && a.Keys == b.Keys
            && forall name | name in a && a[name].family != Performance :: b[name] == MirrorMetric(a[name])
  {
    hide MetricFamily, MetricDirection, Tolerance, Classify;
    var a, b := Metrics(left, right, timings), Metrics(right, left, timings);
    forall name | name in a && a[name].family != Performance
      ensures b[name] == MirrorMetric(a[name])
    {
      MetricSwaps(name, left[name].value, right[name].value);
    }
  }

  lemma {:induction false} RowsSwap(ids: seq<string>, before: map<string, Case>, after: map<string, Case>, timings: bool)
    requires forall id | id in before :: before[id].id == id
    requires forall id | id in after :: after[id].id == id
    ensures var a, b := RowsFor(ids, before, after, timings), RowsFor(ids, after, before, timings);
            if a.Ok? then b.Ok? && forall k | 0 <= k < |ids| :: MirrorRow(a.value[k], b.value[k]) else a == b
  {
    hide CompareCases, MirrorRow, AllCountable;
    if ids != [] {
      var id := ids[|ids| - 1];
      RowsSwap(ids[..|ids| - 1], before, after, timings);
      if id in before && id in after {
        CasesSwap(before[id], after[id], timings);
      } else {
        assert MirrorRow(Skipped(id), Skipped(id)) by { SkippedMirrors(id); }
      }
    }
  }

  lemma SkippedMirrors(id: string)
    ensures MirrorRow(Skipped(id), Skipped(id))
  {}

  /** Comparing in the other order fails in the same way, or gives the mirrored rows in the same order. */
  lemma RunsSwap(before: Run, after: Run)
    ensures var a, b := ComparedRuns(before, after), ComparedRuns(after, before);
            if a.Err? then a == b
            else b.Ok? && |b.value.rows| == |a.value.rows|
                 && forall k | 0 <= k < |a.value.rows| :: MirrorRow(a.value.rows[k], b.value.rows[k])
  {
    assert CaseIds(before, after) == CaseIds(after, before);
    RowsSwap(Sorted(CaseIds(before, after)), CasesById(before.cases), CasesById(after.cases), TimingsComparable(before, after));
    hide RowsFor, Summarise, MirrorRow, CasesById, AllCountable;
  }

  // ----- every case is counted once in every table

  function Total(t: Table): nat {
    t.changed + t.improved + t.regressed + t.same
  }

  function ReviewTotal(t: ByReview): nat {
    Total(t.candidate) + Total(t.reviewed)
  }

  function SplitTotal(t: BySplit): nat {
    Total(t.development) + Total(t.validation) + Total(t.heldOut)
  }

  function PerformanceTotal(t: PerformanceTable): nat {
    t.changed + t.incomparable + t.same
  }

  /** Each table, together with the incomparable cases, adds up to `n`. */
  ghost predicate AddsUpTo(s: Summary, n: nat) {
    && ReviewTotal(s.quality) + s.incomparable == n && ReviewTotal(s.context) + s.incomparable == n
    && SplitTotal(s.qualityBySplit) + s.incomparable == n && SplitTotal(s.contextBySplit) + s.incomparable == n
    && PerformanceTotal(s.performance) + s.incomparable == n
  }

  lemma ReviewBumped(t: ByReview, review: Review, c: Class)
    requires c != Incomparable
    ensures ReviewTotal(BumpReview(t, review, c)) == ReviewTotal(t) + 1
  {}

  lemma SplitBumped(t: BySplit, split: Split, c: Class)
    requires c != Incomparable
    ensures SplitTotal(BumpSplit(t, split, c)) == SplitTotal(t) + 1
  {}

  lemma CountConserves(s: Summary, row: Row, n: nat)
    requires AddsUpTo(s, n) && Countable(row)
    ensures AddsUpTo(Count(s, row), n + 1)
  {
    if row.Compared? {
      ReviewBumped(s.quality, row.review, row.status);
      ReviewBumped(s.context, row.review, row.context);
      SplitBumped(s.qualityBySplit, row.split, row.status);
      SplitBumped(s.contextBySplit, row.split, row.context);
    }
    hide BumpReview, BumpSplit, ReviewTotal, SplitTotal;
  }

  /** Every row is counted once in each table. */
  lemma {:induction false} TablesConserve(rows: seq<Row>)
    requires AllCountable(rows)
    ensures AddsUpTo(Summarise(rows), |rows|)
  {
    hide Count, Countable, AddsUpTo, Summarise;
    if rows == [] {
      NothingYet([], map[], map[], false);
      EmptyTables(Summarise(rows));
    } else {
      var n := |rows| - 1;
      assert AllCountable(rows[..n]) && Countable(rows[n]);
      TablesConserve(rows[..n]);
      CountConserves(Summarise(rows[..n]), rows[n], n);
      assert rows[..n] + [rows[n]] == rows;
      SummariseStep(rows[..n], rows[n]);
    }
  }

  lemma EmptyTables(s: Summary)
    requires s == EMPTY_SUMMARY
    ensures AddsUpTo(s, 0)
  {
    hide *;
    EmptyByReview(s);
    EmptyBySplit(s);
    EmptyPerformance(s);
    Assemble(s, 0);
  }

  lemma EmptyPerformance(s: Summary)
    requires s == EMPTY_SUMMARY
    ensures PerformanceTotal(s.performance) + s.incomparable == 0
  {}

  lemma EmptyByReview(s: Summary)
    requires s == EMPTY_SUMMARY
    ensures ReviewTotal(s.quality) + s.incomparable == ReviewTotal(s.context) + s.incomparable == 0
  {}

  lemma EmptyBySplit(s: Summary)
    requires s == EMPTY_SUMMARY
    ensures SplitTotal(s.qualityBySplit) + s.incomparable == SplitTotal(s.contextBySplit) + s.incomparable == 0
  {}

  lemma Assemble(s: Summary, n: nat)
    requires ReviewTotal(s.quality) + s.incomparable == ReviewTotal(s.context) + s.incomparable == n
    requires SplitTotal(s.qualityBySplit) + s.incomparable == SplitTotal(s.contextBySplit) + s.incomparable == n
    requires PerformanceTotal(s.performance) + s.incomparable == n
    ensures AddsUpTo(s, n)
  {}

  function Cell(t: Table, c: Class): nat
    requires c != Incomparable
  {
    match c
    case Changed => t.changed
    case Improved => t.improved
    case Regressed => t.regressed
    case Unchanged => t.same
  }

  predicate InQuality(row: Row, review: Review, c: Class) { row.Compared? && row.review == review && row.status == c }

  predicate InContext(row: Row, review: Review, c: Class) { row.Compared? && row.review == review && row.context == c }

  predicate InSplitQuality(row: Row, split: Split, c: Class) { row.Compared? && row.split == split && row.status == c }

  predicate InSplitContext(row: Row, split: Split, c: Class) { row.Compared? && row.split == split && row.context == c }

  function CountRows(rows: seq<Row>, picked: Row -> bool): nat {
    if rows == [] then 0
    else CountRows(rows[..|rows| - 1], picked) + if picked(rows[|rows| - 1]) then 1 else 0
  }

  lemma ReviewCell(t: ByReview, review: Review, c: Class, bumped: Review, d: Class)
    requires c != Incomparable && d != Incomparable
    ensures Cell(BumpReview(t, bumped, d).At(review), c)
            == Cell(t.At(review), c) + if review == bumped && c == d then 1 else 0
  {}

  lemma SplitCell(t: BySplit, split: Split, c: Class, bumped: Split, d: Class)
    requires c != Incomparable && d != Incomparable
    ensures Cell(BumpSplit(t, bumped, d).At(split), c)
            == Cell(t.At(split), c) + if split == bumped && c == d then 1 else 0
  {}

  /** Every cell of the review tables holds exactly the number of rows that belong in it. */
  lemma {:induction false} ReviewCellsCount(rows: seq<Row>, review: Review, c: Class)
    requires AllCountable(rows) && c != Incomparable
    ensures Cell(Summarise(rows).quality.At(review), c) == CountRows(rows, row => InQuality(row, review, c))
    ensures Cell(Summarise(rows).context.At(review), c) == CountRows(rows, row => InContext(row, review, c))
  {
    if rows != [] {
      var n := |rows| - 1;
      var s, row := Summarise(rows[..n]), rows[n];
      ReviewCellsCount(rows[..n], review, c);
      if row.Compared? {
        ReviewCell(s.quality, review, c, row.review, row.status);
        ReviewCell(s.context, review, c, row.review, row.context);
      }
      hide BumpReview, BumpSplit, Cell, BumpPerformance;
    }
  }

  /** The same for the tables by split. */
  lemma {:induction false} SplitCellsCount(rows: seq<Row>, split: Split, c: Class)
    requires AllCountable(rows) && c != Incomparable
    ensures Cell(Summarise(rows).qualityBySplit.At(split), c) == CountRows(rows, row => InSplitQuality(row, split, c))
    ensures Cell(Summarise(rows).contextBySplit.At(split), c) == CountRows(rows, row => InSplitContext(row, split, c))
  {
    if rows != [] {
      var n := |rows| - 1;
      var s, row := Summarise(rows[..n]), rows[n];
      SplitCellsCount(rows[..n], split, c);
      if row.Compared? {
        SplitCell(s.qualityBySplit, split, c, row.split, row.status);
        SplitCell(s.contextBySplit, split, c, row.split, row.context);
      }
      hide BumpReview, BumpSplit, Cell, BumpPerformance;
    }
  }

  /** The case is missing on one side, or its corpus entry was changed. */
  ghost predicate IsIncomparable(id: string, before: map<string, Case>, after: map<string, Case>) {
    id !in before || id !in after || before[id].digest != after[id].digest
  }

  /** The rows of a comparison, one for each id. */
  lemma ComparisonRows(before: Run, after: Run, rows: seq<Row>)
    requires ComparedRuns(before, after).Ok? && ComparedRuns(before, after).value.rows == rows
    ensures var ids := Sorted(CaseIds(before, after));
            && AllCountable(rows) && |rows| == |ids|
            && forall k | 0 <= k < |rows| ::
                 RowFor(ids[k], CasesById(before.cases), CasesById(after.cases), TimingsComparable(before, after))
                 == Ok(rows[k])
  {
    hide Summarise, CasesById, RowFor, TimingsComparable, AllCountable, CaseIds;
  }

  /** Row by row the id, and skipped exactly when the case is incomparable. */
  ghost predicate Identify(ids: seq<string>, rows: seq<Row>, before: map<string, Case>, after: map<string, Case>) {
    |rows| == |ids| && forall k | 0 <= k < |rows| ::
      rows[k].id == ids[k] && (rows[k].Skipped? <==> IsIncomparable(ids[k], before, after))
  }

  /** One row per distinct case id, in order; a case is skipped exactly when it is incomparable. */
  ghost predicate RowsMatchCases(rows: seq<Row>, before: Run, after: Run) {
    var ids := Sorted(CaseIds(before, after));
    && AllCountable(rows) && |rows| == |ids| == |CaseIds(before, after)|
    && Identify(ids, rows, CasesById(before.cases), CasesById(after.cases))
  }

  lemma OneRowPerCase(before: Run, after: Run)
    ensures ComparedRuns(before, after).Ok? ==> RowsMatchCases(ComparedRuns(before, after).value.rows, before, after)
  {
    hide *;
    if ComparedRuns(before, after).Ok? { RowsMatch(before, after, ComparedRuns(before, after).value.rows); }
  }

  lemma RowsMatch(before: Run, after: Run, rows: seq<Row>)
    requires ComparedRuns(before, after).Ok? && ComparedRuns(before, after).value.rows == rows
    ensures RowsMatchCases(rows, before, after)
  {
    hide ComparedRuns, AllCountable, CaseIds, Sorted, CasesById, TimingsComparable, RowFor, Identify;
    ComparisonRows(before, after, rows);
    SortedSize(CaseIds(before, after));
    RowsIdentify(Sorted(CaseIds(before, after)), rows, CasesById(before.cases), CasesById(after.cases),
                 TimingsComparable(before, after));
  }

  lemma RowsIdentify(ids: seq<string>, rows: seq<Row>, before: map<string, Case>, after: map<string, Case>, timings: bool)
    requires forall id | id in before :: before[id].id == id
    requires |rows| == |ids| && forall k | 0 <= k < |rows| :: RowFor(ids[k], before, after, timings) == Ok(rows[k])
    ensures Identify(ids, rows, before, after)
  {
    hide RowFor, IsIncomparable;
    forall k | 0 <= k < |rows|
      ensures rows[k].id == ids[k] && (rows[k].Skipped? <==> IsIncomparable(ids[k], before, after))
    {
      RowIdentifies(ids[k], before, after, timings);
    }
  }

  lemma RowIdentifies(id: string, before: map<string, Case>, after: map<string, Case>, timings: bool)
    requires id in before ==> before[id].id == id
    ensures var row := RowFor(id, before, after, timings);
            row.Ok? ==> row.value.id == id && (row.value.Skipped? <==> IsIncomparable(id, before, after))
  {}

  /** Both runs name one cache policy and one environment. */
  ghost predicate SameConditions(before: Run, after: Run) {
    exists policy, environment ::
      && before.cachePolicy == Some(policy) == after.cachePolicy
      && before.environment == Some(environment) == after.environment
  }

  /** The row holds the metric exactly when it is a number on both sides, with both values, and a cost is incomparable
      exactly when the conditions of the runs differ or are unknown. */
  ghost predicate HoldsMetric(row: Row, left: Case, right: Case, sameConditions: bool, name: string)
    requires row.Compared?
  {
    && (name in row.metrics <==>
        && name in left.metrics && left.metrics[name].Number? && name in right.metrics && right.metrics[name].Number?)
    && (name in row.metrics ==>
        && Number(row.metrics[name].before) == left.metrics[name] && Number(row.metrics[name].after) == right.metrics[name]
        && (row.metrics[name].classification == Incomparable <==> MetricFamily(name) == Performance && !sameConditions))
  }

  ghost predicate HoldsMetrics(row: Row, before: Run, after: Run) {
    row.Compared? ==>
      var left, right := CasesById(before.cases), CasesById(after.cases);
      row.id in left && row.id in right
      && forall name :: HoldsMetric(row, left[row.id], right[row.id], SameConditions(before, after), name)
  }

  lemma RowMetricsExactly(before: Run, after: Run)
    ensures ComparedRuns(before, after).Ok? ==>
              forall row | row in ComparedRuns(before, after).value.rows :: HoldsMetrics(row, before, after)
  {
    hide *;
    if ComparedRuns(before, after).Ok? {
      var rows := ComparedRuns(before, after).value.rows;
      ComparisonRows(before, after, rows);
      forall row | row in rows
        ensures HoldsMetrics(row, before, after)
      {
        var k :| 0 <= k < |rows| && rows[k] == row;
        RowHoldsMetrics(Sorted(CaseIds(before, after))[k], before, after, row);
      }
    }
  }

  lemma RowHoldsMetrics(id: string, before: Run, after: Run, row: Row)
    requires RowFor(id, CasesById(before.cases), CasesById(after.cases), TimingsComparable(before, after)) == Ok(row)
    ensures HoldsMetrics(row, before, after)
  {
    var left, right, timings := CasesById(before.cases), CasesById(after.cases), TimingsComparable(before, after);
    GateIsSameConditions(before, after);
    hide CasesById, CompareCases, TimingsComparable, SameConditions, HoldsMetric;
    if row.Compared? {
      CaseMetricsExactly(left[id], right[id], timings, "");
      assert row.id == id;
      forall name ensures HoldsMetric(row, left[id], right[id], SameConditions(before, after), name) {
        CaseMetricsExactly(left[id], right[id], timings, name);
      }
    }
  }

  lemma GateIsSameConditions(before: Run, after: Run)
    ensures TimingsComparable(before, after) <==> SameConditions(before, after)
  {}

  lemma CaseMetricsExactly(left: Case, right: Case, timings: bool, name: string)
    ensures var r := CompareCases(left, right, timings);
            r.Ok? && r.value.Compared? ==> r.value.id == left.id && HoldsMetric(r.value, left, right, timings, name)
  {
    hide CompareLedgers, MetricFamily, MetricDirection, Tolerance, ComparisonStatus, PerformanceStatus, Classes;
  }

  /** All counters of a comparison, table by table, add up to the number of distinct case ids. */
  lemma ComparisonConserves(before: Run, after: Run)
    ensures ComparedRuns(before, after).Ok? ==>
              AddsUpTo(ComparedRuns(before, after).value.summary, |CaseIds(before, after)|)
  {
    if ComparedRuns(before, after).Ok? {
      ComparisonRows(before, after, ComparedRuns(before, after).value.rows);
      SortedSize(CaseIds(before, after));
      TablesConserve(ComparedRuns(before, after).value.rows);
      hide Summarise, AddsUpTo, RowsFor, CasesById;
    }
  }

  // ----- a run against itself

  /** A metric against itself never moves. */
  lemma MetricAgainstItself(name: string, value: real)
    ensures CompareMetric(name, value, value).classification == Unchanged
  {
    hide MetricFamily, MetricDirection, HasAny;
  }

  ghost predicate NothingMoved(ts: seq<Transition>) {
    forall k | 0 <= k < |ts| :: ts[k].classification == Unchanged
  }

  lemma KindAgainstItself(kind: Kind, rows: Option<seq<StoredRow>>)
    ensures CompareKind(kind, rows, rows).Ok? ==> NothingMoved(CompareKind(kind, rows, rows).value)
  {
    hide CauseMap;
  }

  lemma LedgerAgainstItself(ledger: Option<StoredLedger>)
    ensures CompareLedgers(ledger, ledger).Ok? ==> NothingMoved(CompareLedgers(ledger, ledger).value)
  {
    if ledger.Some? {
      KindAgainstItself(Files, ledger.value.files);
      KindAgainstItself(Symbols, ledger.value.symbols);
      KindAgainstItself(Tests, ledger.value.tests);
    }
    hide CompareKind;
  }

  ghost predicate Still(row: Row) {
    && row.Compared? && row.status == Unchanged && row.context == Unchanged && row.performance in {Unchanged, Incomparable}
    && (forall name | name in row.metrics ::
          row.metrics[name].classification == Unchanged
          || (row.metrics[name].family == Performance && row.metrics[name].classification == Incomparable))
    && NothingMoved(row.transitions)
  }

  lemma CaseAgainstItself(c: Case, timings: bool)
    ensures CompareCases(c, c, timings).Ok? ==> Still(CompareCases(c, c, timings).value)
  {
    LedgerAgainstItself(c.ledger);
    var metrics := Metrics(c.metrics, c.metrics, timings);
    forall name | name in metrics
      ensures metrics[name].classification == Unchanged
              || (metrics[name].family == Performance && metrics[name].classification == Incomparable)
    {
      MetricAgainstItself(name, c.metrics[name].value);
    }
    hide Metrics, CompareLedgers;
  }

  /** Only `unchanged` is ever counted. */
  ghost predicate OnlyUnchanged(t: Table) {
    t.changed == t.improved == t.regressed == 0
  }

  ghost predicate SplitsUnchanged(t: BySplit) {
    OnlyUnchanged(t.development) && OnlyUnchanged(t.validation) && OnlyUnchanged(t.heldOut)
  }

  ghost predicate AllUnchanged(s: Summary) {
    && s.incomparable == 0 && s.performance.changed == 0
    && OnlyUnchanged(s.quality.candidate) && OnlyUnchanged(s.quality.reviewed)
    && OnlyUnchanged(s.context.candidate) && OnlyUnchanged(s.context.reviewed)
    && SplitsUnchanged(s.qualityBySplit) && SplitsUnchanged(s.contextBySplit)
  }

  lemma StillRowCounts(s: Summary, row: Row)
    requires AllUnchanged(s) && Countable(row) && Still(row)
    ensures AllUnchanged(Count(s, row))
  {}

  lemma {:induction false} StillRowsSummary(rows: seq<Row>)
    requires AllCountable(rows) && forall k | 0 <= k < |rows| :: Still(rows[k])
    ensures AllUnchanged(Summarise(rows))
  {
    if rows != [] {
      var n := |rows| - 1;
      StillRowsSummary(rows[..n]);
      assert Still(rows[n]);
      hide Count, Still, AllUnchanged;
      StillRowCounts(Summarise(rows[..n]), rows[n]);
    }
  }

  /** A run compared with itself leaves every case comparable and still, and only `unchanged` is counted. */
  lemma RunAgainstItself(run: Run)
    requires ComparedRuns(run, run).Ok?
    ensures forall k | 0 <= k < |ComparedRuns(run, run).value.rows| :: Still(ComparedRuns(run, run).value.rows[k])
    ensures AllUnchanged(ComparedRuns(run, run).value.summary)
  {
    var cases, ids, timings := CasesById(run.cases), Sorted(CaseIds(run, run)), TimingsComparable(run, run);
    var rows := ComparedRuns(run, run).value.rows;
    ComparisonRows(run, run, rows);
    hide CompareCases, Still, CasesById, Summarise, AllUnchanged, TimingsComparable, CompareMetric;
    forall k | 0 <= k < |rows|
      ensures Still(rows[k])
    {
      assert ids[k] in Elements(ids);
      assert RowFor(ids[k], cases, cases, timings) == Ok(rows[k]);
      CaseAgainstItself(cases[ids[k]], timings);
    }
    StillRowsSummary(rows);
  }

  // ----- swapping the tables

  /** One of the tables a summary keeps for quality and for context. */
  datatype Place = OfReview(review: Review) | OfSplit(split: Split)

  /** Quality and context statuses are counted by review and by split. */
  predicate HasTables(family: Family) {
    family == Quality || family == Context
  }

  function TableAt(s: Summary, family: Family, place: Place): Table
    requires HasTables(family)
  {
    match place
    case OfReview(review) => if family == Quality then s.quality.At(review) else s.context.At(review)
    case OfSplit(split) => if family == Quality then s.qualityBySplit.At(split) else s.contextBySplit.At(split)
  }

  function StatusOf(row: Row, family: Family): Class
    requires row.Compared? && HasTables(family)
  {
    if family == Quality then row.status else row.context
  }

  predicate Belongs(row: Row, place: Place) {
    row.Compared? && match place case OfReview(review) => row.review == review case OfSplit(split) => row.split == split
  }

  /** A mixed row counted in the table. */
  ghost predicate MixedAt(row: Row, family: Family, place: Place) {
    Belongs(row, place) && MixedIn(row, family)
  }

  ghost function MixedCount(rows: seq<Row>, family: Family, place: Place): nat {
    CountRows(rows, row => MixedAt(row, family, place))
  }

  /** The same case from the other side, under the same labels. */
  ghost predicate TurnsRow(a: Row, b: Row, family: Family)
    requires HasTables(family)
  {
    if a.Skipped? then b.Skipped?
    else b.Compared? && a.review == b.review && a.split == b.split
         && TurnsStatus(StatusOf(a, family), StatusOf(b, family), MixedIn(a, family))
  }

  /** Improved and regressed exchanged, apart from `mixed` rows that count as regressed on both sides. */
  predicate TurnsTable(a: Table, b: Table, mixed: nat) {
    && b.changed == a.changed && b.same == a.same
    && b.regressed == a.improved + mixed && b.improved + mixed == a.regressed
  }

  predicate MirrorsTable(a: Table, b: Table) {
    b == Table(a.changed, a.regressed, a.improved, a.same)
  }

  lemma CountAt(s: Summary, row: Row, family: Family, place: Place)
    requires Countable(row) && HasTables(family)
    ensures TableAt(Count(s, row), family, place)
            == if Belongs(row, place) then Bump(TableAt(s, family, place), StatusOf(row, family)) else TableAt(s, family, place)
  {}

  lemma EmptyAt(family: Family, place: Place)
    requires HasTables(family)
    ensures TableAt(EMPTY_SUMMARY, family, place) == NO_CASES
  {}

  /** Rows seen from the other side fill each table with improved and regressed exchanged, up to its mixed rows. */
  lemma {:induction false} TablesSwap(a: seq<Row>, b: seq<Row>, family: Family, place: Place)
    requires HasTables(family) && AllCountable(a) && AllCountable(b)
    requires |a| == |b| && forall k | 0 <= k < |a| :: TurnsRow(a[k], b[k], family)
    ensures TurnsTable(TableAt(Summarise(a), family, place), TableAt(Summarise(b), family, place), MixedCount(a, family, place))
  {
    hide Count, Countable, Summarise, TableAt, EMPTY_SUMMARY;
    if a == [] {
      NothingYet([], map[], map[], false);
      EmptyAt(family, place);
    } else {
      var n := |a| - 1;
      assert Countable(a[n]) && Countable(b[n]) && TurnsRow(a[n], b[n], family);
      TablesSwap(a[..n], b[..n], family, place);
      assert a[..n] + [a[n]] == a && b[..n] + [b[n]] == b;
      SummariseStep(a[..n], a[n]);
      SummariseStep(b[..n], b[n]);
      CountAt(Summarise(a[..n]), a[n], family, place);
      CountAt(Summarise(b[..n]), b[n], family, place);
      BumpTurns(a[n], b[n], TableAt(Summarise(a[..n]), family, place), TableAt(Summarise(b[..n]), family, place),
                MixedCount(a[..n], family, place), family, place);
    }
  }

  lemma BumpTurns(a: Row, b: Row, x: Table, y: Table, mixed: nat, family: Family, place: Place)
    requires HasTables(family) && Countable(a) && Countable(b) && TurnsRow(a, b, family) && TurnsTable(x, y, mixed)
    ensures Belongs(a, place) <==> Belongs(b, place)
    ensures Belongs(a, place) ==>
              TurnsTable(Bump(x, StatusOf(a, family)), Bump(y, StatusOf(b, family)), mixed + if MixedAt(a, family, place) then 1 else 0)
  {}

  lemma {:induction false} CountNone(rows: seq<Row>, picked: Row -> bool)
    ensures CountRows(rows, picked) == 0 <==> forall row | row in rows :: !picked(row)
  {
    if rows != [] {
      var n := |rows| - 1;
      CountNone(rows[..n], picked);
      assert rows == rows[..n] + [rows[n]];
    }
  }

  lemma SwappedTable(a: seq<Row>, b: seq<Row>, family: Family, place: Place)
    requires HasTables(family) && AllCountable(a) && AllCountable(b) && RowsTurn(a, b)
    ensures Summarise(a).incomparable == Summarise(b).incomparable
    ensures var x, y := TableAt(Summarise(a), family, place), TableAt(Summarise(b), family, place);
            && TurnsTable(x, y, MixedCount(a, family, place))
            && (MirrorsTable(x, y) <==> forall row | row in a :: !MixedAt(row, family, place))
  {
    hide Summarise, AllCountable, TurnsRow, MixedAt, TableAt;
    SameIncomparable(a, b);
    TablesSwap(a, b, family, place);
    CountNone(a, row => MixedAt(row, family, place));
  }

  lemma SameIncomparable(a: seq<Row>, b: seq<Row>)
    requires AllCountable(a) && AllCountable(b) && RowsTurn(a, b)
    ensures Summarise(a).incomparable == Summarise(b).incomparable
  {
    hide Summarise, AllCountable, TurnsRow, MixedCount;
    TablesSwap(a, b, Quality, OfReview(Candidate));
    TablesSwap(a, b, Quality, OfReview(Reviewed));
    TablesConserve(a);
    TablesConserve(b);
  }

  /** Comparable cases carry the same review status and split in both runs. */
  ghost predicate SameLabels(before: Run, after: Run) {
    var left, right := CasesById(before.cases), CasesById(after.cases);
    forall id | id in left && id in right && left[id].digest == right[id].digest ::
      left[id].review == right[id].review && left[id].split == right[id].split
  }

  lemma RowLabels(id: string, before: map<string, Case>, after: map<string, Case>, timings: bool)
    ensures var row := RowFor(id, before, after, timings);
            row.Ok? && row.value.Compared? ==>
              && id in before && id in after && before[id].digest == after[id].digest
              && row.value.review == after[id].review && row.value.split == after[id].split
  {}

  /** Row by row the same cases from the other side, under the same labels. */
  ghost predicate RowsTurn(a: seq<Row>, b: seq<Row>) {
    |a| == |b| && forall family, k | HasTables(family) && 0 <= k < |a| :: TurnsRow(a[k], b[k], family)
  }

  lemma RunsTurn(before: Run, after: Run)
    requires ComparedRuns(before, after).Ok? && SameLabels(before, after)
    ensures ComparedRuns(after, before).Ok?
    ensures RowsTurn(ComparedRuns(before, after).value.rows, ComparedRuns(after, before).value.rows)
  {
    var a, b := ComparedRuns(before, after), ComparedRuns(after, before);
    RunsSwap(before, after);
    ComparisonRows(before, after, a.value.rows);
    ComparisonRows(after, before, b.value.rows);
    assert CaseIds(before, after) == CaseIds(after, before);
    hide ComparedRuns, RowFor, CasesById, Summarise, AllCountable, CaseIds, TimingsComparable, MirrorRow, TurnsRow;
    var ids, left, right := Sorted(CaseIds(before, after)), CasesById(before.cases), CasesById(after.cases);
    forall k | 0 <= k < |a.value.rows|
      ensures forall family | HasTables(family) :: TurnsRow(a.value.rows[k], b.value.rows[k], family)
    {
      assert MirrorRow(a.value.rows[k], b.value.rows[k]);
      RowLabels(ids[k], left, right, TimingsComparable(before, after));
      RowLabels(ids[k], right, left, TimingsComparable(after, before));
      RowTurns(a.value.rows[k], b.value.rows[k]);
    }
  }

  lemma RowTurns(a: Row, b: Row)
    requires MirrorRow(a, b)
    requires a.Compared? && b.Compared? ==> a.review == b.review && a.split == b.split
    ensures forall family | HasTables(family) :: TurnsRow(a, b, family)
  {
    hide MixedIn, Backwards, Mirror;
  }

  /** Swapping the runs, when they agree on the labels of comparable cases: in every quality and context table improved
      and regressed are exchanged up to the mixed cases, which count as regressed either way. So a table is mirrored
      exactly when no mixed case is counted in it. */
  lemma SummariesSwap(before: Run, after: Run, family: Family, place: Place)
    requires HasTables(family)
    ensures var a, b := ComparedRuns(before, after), ComparedRuns(after, before);
            a.Ok? && SameLabels(before, after) ==>
              && b.Ok? && a.value.summary.incomparable == b.value.summary.incomparable
              && TurnsTable(TableAt(a.value.summary, family, place), TableAt(b.value.summary, family, place),
                            MixedCount(a.value.rows, family, place))
              && (MirrorsTable(TableAt(a.value.summary, family, place), TableAt(b.value.summary, family, place)) <==>
                  forall row | row in a.value.rows :: !MixedAt(row, family, place))
  {
    hide *;
    if ComparedRuns(before, after).Ok? && SameLabels(before, after) {
      RunsTurn(before, after);
      SummaryOfRows(before, after);
      SummaryOfRows(after, before);
      SwappedTable(ComparedRuns(before, after).value.rows, ComparedRuns(after, before).value.rows, family, place);
    }
  }

  lemma SummaryOfRows(before: Run, after: Run)
    requires ComparedRuns(before, after).Ok?
    ensures AllCountable(ComparedRuns(before, after).value.rows)
    ensures ComparedRuns(before, after).value.summary == Summarise(ComparedRuns(before, after).value.rows)
  {
    hide Summarise, CasesById, TimingsComparable, CaseIds, Sorted;
  }
}
