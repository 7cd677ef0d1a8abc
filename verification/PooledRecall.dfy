/** Pooling stored per-case recalls: the hit counts are recovered by rounding `recall * truth`.

    `fl` stands for rounding an exact result to double precision; nothing is assumed of it beyond the relative error
    bound of the format in the range that occurs here. */
module PooledRecall {
  import opened Prelude

  /** Half an ulp at 1.0, the relative error bound of one double operation: 2 to the power -53. */
  const UNIT: real := 1.0 / 9007199254740992.0

  /** The largest truth size considered: 2 to the power 50. */
  const MAX_TRUTH: nat := 1125899906842624

  ghost predicate Near(exact: real, approximate: real) {
    exact - UNIT * exact <= approximate <= exact + UNIT * exact
  }

  /** Rounding to double precision, on non-negative values within 2^-60 to 2^60 and on zero. */
  ghost predicate DoubleRounding(fl: real -> real) {
    && fl(0.0) == 0.0
    && forall x: real | 1.0 / 1152921504606846976.0 <= x <= 1152921504606846976.0 :: Near(x, fl(x))
  }

  /** One case: the true hit and truth counts behind its stored recall. A case without truth stores no recall. */
  datatype Case = Case(hits: nat, truth: nat)

  ghost predicate ValidCase(c: Case) {
    c.hits <= c.truth <= MAX_TRUTH
  }

  /** The recall the run stores for a case, computed in floating point. */
  function StoredRecall(c: Case, fl: real -> real): real
    requires c.truth > 0
  {
    fl(c.hits as real / c.truth as real)
  }

  /** Python's `round`: to the nearest integer, ties to even. */
  function Round(x: real): int {
    var below := x.Floor;
    var part := x - below as real;
    if part < 0.5 then below
    else if part > 0.5 then below + 1
    else if below % 2 == 0 then below else below + 1
  }

  lemma RoundNearest(x: real, n: int)
    requires n as real - 0.5 < x < n as real + 0.5
    ensures Round(x) == n
  {}

  function Scaled(recall: real, truth: nat): real {
    recall * truth as real
  }

  /** The hit count read back from a stored recall. */
  function RecoveredHits(recall: real, truth: nat, fl: real -> real): int {
    Round(fl(Scaled(recall, truth)))
  }

  lemma ScaleDown(h: real, t: real)
    requires 1.0 <= h <= t
    ensures 1.0 / t <= h / t <= 1.0
  {
    assert h / t * t == h;
  }

  lemma Reciprocal(t: real)
    requires 1.0 <= t <= MAX_TRUTH as real
    ensures 1.0 / t >= 1.0 / MAX_TRUTH as real
  {
    assert 1.0 / t * t == 1.0;
    var m := MAX_TRUTH as real;
    assert 1.0 / m * m == 1.0;
    if 1.0 / t < 1.0 / m {
      assert 1.0 / t * t < 1.0 / m * t <= 1.0 / m * m;
    }
  }

  /** The first rounding, scaled by the truth size: off by at most one unit relative to the hit count. */
  lemma ScaledNear(h: real, t: real, recall: real)
    requires 1.0 <= h <= t
    requires Near(h / t, recall)
    ensures Near(h, recall * t)
  {
    var q := h / t;
    assert q * t == h;
    assert (q - UNIT * q) * t == h - UNIT * h;
    assert (q + UNIT * q) * t == h + UNIT * h;
    assert (q - UNIT * q) * t <= recall * t;
    assert recall * t <= (q + UNIT * q) * t;
  }

  /** Two roundings move a count of at most 2^50 by less than one half. */
  lemma TwiceNear(h: real, once: real, twice: real)
    requires 1.0 <= h <= MAX_TRUTH as real
    requires Near(h, once) && Near(once, twice)
    ensures h - 0.5 < twice < h + 0.5
  {
    assert UNIT * h <= 0.125;
    assert UNIT * once <= 0.25;
  }

  lemma RecallNear(c: Case, fl: real -> real)
    requires DoubleRounding(fl) && ValidCase(c) && c.hits > 0
    ensures Near(c.hits as real / c.truth as real, StoredRecall(c, fl))
  {
    ScaleDown(c.hits as real, c.truth as real);
    Reciprocal(c.truth as real);
  }

  lemma ScaledRange(h: real, scaled: real)
    requires 1.0 <= h <= MAX_TRUTH as real
    requires Near(h, scaled)
    ensures 0.5 <= scaled <= 2.0 * MAX_TRUTH as real
  {
    assert UNIT * h <= 0.125;
  }

  lemma ZeroHits(c: Case, fl: real -> real)
    requires DoubleRounding(fl) && c.truth > 0 && c.hits == 0
    ensures RecoveredHits(StoredRecall(c, fl), c.truth, fl) == 0
  {
    assert c.hits as real / c.truth as real == 0.0;
    assert Scaled(StoredRecall(c, fl), c.truth) == 0.0;
    RoundNearest(0.0, 0);
  }

  lemma NearRecallRecovers(c: Case, recall: real, fl: real -> real)
    requires DoubleRounding(fl) && ValidCase(c) && c.hits > 0
    requires Near(c.hits as real / c.truth as real, recall)
    ensures RecoveredHits(recall, c.truth, fl) == c.hits
  {
    var h, scaled := c.hits as real, Scaled(recall, c.truth);
    ScaledNear(h, c.truth as real, recall);
    ScaledRange(h, scaled);
    TwiceNear(h, scaled, fl(scaled));
    RoundNearest(fl(scaled), c.hits);
  }

  /** Rounding the scaled recall gives back exactly the number of hits. */
  lemma RoundingRecoversHits(c: Case, fl: real -> real)
    requires DoubleRounding(fl) && ValidCase(c) && c.truth > 0
    ensures RecoveredHits(StoredRecall(c, fl), c.truth, fl) == c.hits
  {
    if c.hits == 0 {
      ZeroHits(c, fl);
    } else {
      RecallNear(c, fl);
      NearRecallRecovers(c, StoredRecall(c, fl), fl);
    }
  }

  // ----- pooling

  function TotalHits(cases: seq<Case>): nat {
    if cases == [] then 0 else TotalHits(cases[..|cases| - 1]) + cases[|cases| - 1].hits
  }

  function TotalTruth(cases: seq<Case>): nat {
    if cases == [] then 0 else TotalTruth(cases[..|cases| - 1]) + cases[|cases| - 1].truth
  }

  /** What a run document keeps of a case for one metric: the truth size and the recall, null without truth. */
  datatype StoredCase = StoredCase(truth: nat, recall: Option<real>)

  datatype PooledRow = PooledRow(truth: nat, hits: int, recall: real)

  function Store(c: Case, fl: real -> real): StoredCase {
    StoredCase(c.truth, if c.truth == 0 then None else Some(StoredRecall(c, fl)))
  }

  /** The contribution of one stored case to the pooled hits. */
  function HitsOf(c: StoredCase, fl: real -> real): int {
    if c.recall.None? then 0 else RecoveredHits(c.recall.value, c.truth, fl)
  }

  lemma StoredHits(c: Case, fl: real -> real)
    requires DoubleRounding(fl) && ValidCase(c)
    ensures HitsOf(Store(c, fl), fl) == c.hits
  {
    if c.truth > 0 { RoundingRecoversHits(c, fl); }
  }

  function PooledRowOf(hits: int, truth: nat, fl: real -> real): Option<PooledRow> {
    if truth == 0 then None else Some(PooledRow(truth, hits, fl(hits as real / truth as real)))
  }

  /** The pooled row of one metric, from stored values only; there is none when no case has truth.
      `actual` are the counts behind the stored values. */
  method Pool(stored: seq<StoredCase>, fl: real -> real, ghost actual: seq<Case>) returns (row: Option<PooledRow>)
    requires DoubleRounding(fl)
    requires |actual| == |stored|
    requires forall i | 0 <= i < |actual| :: ValidCase(actual[i]) && stored[i] == Store(actual[i], fl)
    ensures row.None? <==> TotalTruth(actual) == 0
    ensures row.Some? ==>
              && row.value.truth == TotalTruth(actual) && row.value.hits == TotalHits(actual)
              && row.value.recall == fl(TotalHits(actual) as real / TotalTruth(actual) as real)
  {
    var hits, truth := 0, 0;
    for i := 0 to |stored|
      invariant truth == TotalTruth(actual[..i])
      invariant hits == TotalHits(actual[..i])
    {
      assert actual[..i + 1][..i] == actual[..i];
      StoredHits(actual[i], fl);
      truth := truth + stored[i].truth;
      hits := hits + HitsOf(stored[i], fl);
    }
    assert actual[..|actual|] == actual;
    return PooledRowOf(hits, truth, fl);
  }

  /** The case's exact recall lies at or above the ratio, in cross-multiplied form. */
  ghost predicate RecallAtLeast(c: Case, numerator: nat, denominator: nat) {
    numerator * c.truth <= c.hits * denominator
  }

  ghost predicate RecallAtMost(c: Case, numerator: nat, denominator: nat) {
    c.hits * denominator <= numerator * c.truth
  }

  lemma {:induction false} PooledAtLeast(cases: seq<Case>, n: nat, d: nat)
    requires forall c | c in cases :: RecallAtLeast(c, n, d)
    ensures n * TotalTruth(cases) <= TotalHits(cases) * d
  {
    if cases != [] {
      var init, last := cases[..|cases| - 1], cases[|cases| - 1];
      PooledAtLeast(init, n, d);
      assert RecallAtLeast(last, n, d);
      assert n * TotalTruth(cases) == n * TotalTruth(init) + n * last.truth;
      assert TotalHits(cases) * d == TotalHits(init) * d + last.hits * d;
    }
  }

  lemma {:induction false} PooledAtMost(cases: seq<Case>, n: nat, d: nat)
    requires forall c | c in cases :: RecallAtMost(c, n, d)
    ensures TotalHits(cases) * d <= n * TotalTruth(cases)
  {
    if cases != [] {
      var init, last := cases[..|cases| - 1], cases[|cases| - 1];
      PooledAtMost(init, n, d);
      assert RecallAtMost(last, n, d);
      assert n * TotalTruth(cases) == n * TotalTruth(init) + n * last.truth;
      assert TotalHits(cases) * d == TotalHits(init) * d + last.hits * d;
    }
  }

  ghost predicate IsWorst(cases: seq<Case>, worst: Case) {
    worst in cases && worst.truth > 0
    && forall c | c in cases && c.truth > 0 :: RecallAtLeast(c, worst.hits, worst.truth)
  }

  ghost predicate IsBest(cases: seq<Case>, best: Case) {
    best in cases && best.truth > 0
    && forall c | c in cases && c.truth > 0 :: RecallAtMost(c, best.hits, best.truth)
  }

  /** The pooled recall lies between the recalls of the worst and the best case that has truth. */
  lemma PooledBetweenExtremes(cases: seq<Case>, worst: Case, best: Case)
    requires forall c | c in cases :: ValidCase(c)
    requires IsWorst(cases, worst) && IsBest(cases, best)
    ensures TotalTruth(cases) > 0
    ensures worst.hits as real / worst.truth as real
            <= TotalHits(cases) as real / TotalTruth(cases) as real
            <= best.hits as real / best.truth as real
  {
    forall c | c in cases
      ensures RecallAtLeast(c, worst.hits, worst.truth) && RecallAtMost(c, best.hits, best.truth)
    {
      assert ValidCase(c);
    }
    PooledAtLeast(cases, worst.hits, worst.truth);
    PooledAtMost(cases, best.hits, best.truth);
    TruthPositive(cases, worst);
    CompareRatios(worst.hits, worst.truth, TotalHits(cases), TotalTruth(cases));
    CompareRatios(TotalHits(cases), TotalTruth(cases), best.hits, best.truth);
  }

  lemma {:induction false} TruthPositive(cases: seq<Case>, c: Case)
    requires c in cases && c.truth > 0
    ensures TotalTruth(cases) > 0
  {
    if cases[|cases| - 1] != c {
      assert cases == cases[..|cases| - 1] + [cases[|cases| - 1]];
      TruthPositive(cases[..|cases| - 1], c);
    }
  }

  lemma CompareRatios(a: nat, b: nat, c: nat, d: nat)
    requires b > 0 && d > 0 && a * d <= c * b
    ensures a as real / b as real <= c as real / d as real
  {
    var x, y := a as real / b as real, c as real / d as real;
    var rb, rd := b as real, d as real;
    assert x * rb == a as real && y * rd == c as real;
    assert (a * d) as real <= (c * b) as real;
    assert x * rb * rd <= y * rd * rb;
    CancelScale(x, y, rb * rd);
  }

  lemma CancelScale(x: real, y: real, scale: real)
    requires scale > 0.0 && x * scale <= y * scale
    ensures x <= y
  {}

  // ----- in floating point

  /** Rounding keeps the order, as every rounding mode does. */
  ghost predicate Monotone(fl: real -> real) {
    forall x: real, y: real | x <= y :: fl(x) <= fl(y)
  }

  lemma Distributes(k: int, x: int, y: int)
    ensures k * (x + y) == k * x + k * y && (x + y) * k == x * k + y * k
  {}

  /** If every case with truth lies strictly above a ratio, so does the pool. */
  lemma {:induction false} PooledAbove(cases: seq<Case>, n: nat, d: nat)
    requires forall c | c in cases :: ValidCase(c) && (c.truth > 0 ==> !RecallAtMost(c, n, d))
    ensures if TotalTruth(cases) > 0 then n * TotalTruth(cases) < TotalHits(cases) * d else TotalHits(cases) == 0
  {
    if cases != [] {
      var init, last := cases[..|cases| - 1], cases[|cases| - 1];
      PooledAbove(init, n, d);
      assert ValidCase(last) && (last.truth > 0 ==> n * last.truth < last.hits * d);
      hide *;
      AboveStep(cases, n, d);
    }
  }

  lemma AboveStep(cases: seq<Case>, n: nat, d: nat)
    requires cases != []
    requires var init, last := cases[..|cases| - 1], cases[|cases| - 1];
             && ValidCase(last) && (last.truth > 0 ==> n * last.truth < last.hits * d)
             && (if TotalTruth(init) > 0 then n * TotalTruth(init) < TotalHits(init) * d else TotalHits(init) == 0)
    ensures if TotalTruth(cases) > 0 then n * TotalTruth(cases) < TotalHits(cases) * d else TotalHits(cases) == 0
  {
    var init, last := cases[..|cases| - 1], cases[|cases| - 1];
    Distributes(n, TotalTruth(init), last.truth);
    Distributes(d, TotalHits(init), last.hits);
  }

  /** If every case with truth lies strictly below a ratio, so does the pool. */
  lemma {:induction false} PooledBelow(cases: seq<Case>, n: nat, d: nat)
    requires forall c | c in cases :: ValidCase(c) && (c.truth > 0 ==> !RecallAtLeast(c, n, d))
    ensures if TotalTruth(cases) > 0 then TotalHits(cases) * d < n * TotalTruth(cases) else TotalHits(cases) == 0
  {
    if cases != [] {
      var init, last := cases[..|cases| - 1], cases[|cases| - 1];
      PooledBelow(init, n, d);
      assert ValidCase(last) && (last.truth > 0 ==> last.hits * d < n * last.truth);
      hide *;
      BelowStep(cases, n, d);
    }
  }

  lemma BelowStep(cases: seq<Case>, n: nat, d: nat)
    requires cases != []
    requires var init, last := cases[..|cases| - 1], cases[|cases| - 1];
             && ValidCase(last) && (last.truth > 0 ==> last.hits * d < n * last.truth)
             && (if TotalTruth(init) > 0 then TotalHits(init) * d < n * TotalTruth(init) else TotalHits(init) == 0)
    ensures if TotalTruth(cases) > 0 then TotalHits(cases) * d < n * TotalTruth(cases) else TotalHits(cases) == 0
  {
    var init, last := cases[..|cases| - 1], cases[|cases| - 1];
    Distributes(n, TotalTruth(init), last.truth);
    Distributes(d, TotalHits(init), last.hits);
  }

  /** The recall a pooled row stores lies within any bounds on the stored recalls of the cases with truth, so between
      the smallest and the largest of them. */
  lemma StoredRecallBetweenExtremes(cases: seq<Case>, low: real, high: real, fl: real -> real)
    requires Monotone(fl) && forall c | c in cases :: ValidCase(c)
    requires exists c | c in cases :: c.truth > 0
    requires forall c | c in cases && c.truth > 0 :: low <= StoredRecall(c, fl) <= high
    ensures PooledRowOf(TotalHits(cases), TotalTruth(cases), fl).Some?
    ensures low <= PooledRowOf(TotalHits(cases), TotalTruth(cases), fl).value.recall <= high
  {
    var hits, truth := TotalHits(cases), TotalTruth(cases);
    var some :| some in cases && some.truth > 0;
    TruthPositive(cases, some);
    if forall c | c in cases && c.truth > 0 :: !RecallAtMost(c, hits, truth) { PooledAbove(cases, hits, truth); }
    if forall c | c in cases && c.truth > 0 :: !RecallAtLeast(c, hits, truth) { PooledBelow(cases, hits, truth); }
    var below :| below in cases && below.truth > 0 && RecallAtMost(below, hits, truth);
    var above :| above in cases && above.truth > 0 && RecallAtLeast(above, hits, truth);
    hide RecallAtMost, RecallAtLeast;
    AtMostIsBelow(below, hits, truth);
    AtLeastIsAbove(above, hits, truth);
    assert low <= StoredRecall(below, fl) <= fl(hits as real / truth as real) <= StoredRecall(above, fl) <= high;
  }

  lemma AtMostIsBelow(c: Case, n: nat, d: nat)
    requires c.truth > 0 && d > 0 && RecallAtMost(c, n, d)
    ensures c.hits as real / c.truth as real <= n as real / d as real
  {
    CompareRatios(c.hits, c.truth, n, d);
  }

  lemma AtLeastIsAbove(c: Case, n: nat, d: nat)
    requires c.truth > 0 && d > 0 && RecallAtLeast(c, n, d)
    ensures n as real / d as real <= c.hits as real / c.truth as real
  {
    CompareRatios(n, d, c.hits, c.truth);
  }
}
