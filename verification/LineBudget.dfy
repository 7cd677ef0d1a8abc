/** The greedy line budget: which ranked files fit, taken in rank order and skipping what does not fit. */
module LineBudget {
  import opened Prelude
  import opened Ordering
  import opened Dedup
  import opened RankingMetrics

  /** Line counts of the ranked files that exist in the checkout. */
  type LineCounts = map<string, nat>

  datatype BudgetRow = BudgetRow(files: nat, linesUsed: nat, recall: Option<Ratio>)

  function Lines(files: seq<string>, counts: LineCounts): nat
    requires forall f | f in files :: f in counts
  {
    if files == [] then 0 else
      assert files[|files| - 1] in files;
      Lines(files[..|files| - 1], counts) + counts[files[|files| - 1]]
  }

  /** One budget, walking the ranking once. */
  method SelectWithin(ranked: seq<string>, counts: LineCounts, budget: nat) returns (selected: seq<string>, used: nat)
    requires NoRepeats(ranked)
    ensures IsGreedy(ranked, counts, budget, selected)
    ensures used == Lines(selected, counts)
  {
    selected, used := [], 0;
    for i := 0 to |ranked|
      invariant IsGreedy(ranked[..i], counts, budget, selected)
      invariant used == Lines(selected, counts)
    {
      GreedyStep(ranked[..i], ranked[i], counts, budget, selected);
      assert ranked[..i + 1] == ranked[..i] + [ranked[i]];
      if ranked[i] !in counts || used + counts[ranked[i]] > budget {
        continue;
      }
      used := used + counts[ranked[i]];
      selected := selected + [ranked[i]];
      assert selected[..|selected| - 1] + [ranked[i]] == selected;
    }
    assert ranked[..|ranked|] == ranked;
  }

  method LineBudgetMetrics(ranked: seq<string>, relevant: seq<string>, counts: LineCounts, budgets: seq<nat>)
    returns (rows: seq<BudgetRow>)
    ensures |rows| == |budgets|
    ensures forall i | 0 <= i < |budgets| :: IsBudgetRow(Distinct(ranked), relevant, counts, budgets[i], rows[i])
  {
    var unique := Deduplicate(ranked);
    rows := [];
    for i := 0 to |budgets|
      invariant |rows| == i
      invariant forall k | 0 <= k < i :: IsBudgetRow(unique, relevant, counts, budgets[k], rows[k])
    {
      var selected, used := SelectWithin(unique, counts, budgets[i]);
      RecallMeansHits(relevant, selected);
      rows := rows + [BudgetRow(|selected|, used, RecallOf(relevant, selected))];
    }
  }

  /** The row reports the greedy selection for `budget`: its size, its lines, and its hits over the distinct truth if there
      is any. */
  ghost predicate IsBudgetRow(ranked: seq<string>, relevant: seq<string>, counts: LineCounts, budget: nat, row: BudgetRow) {
    exists selected: seq<string> ::
      && IsGreedy(ranked, counts, budget, selected)
      && row.files == |selected| && row.linesUsed == Lines(selected, counts)
      && (row.recall.None? <==> relevant == [])
      && (row.recall.Some? ==> row.recall.value.numerator == |set x | x in relevant && x in selected|
                               && row.recall.value.denominator == |set x | x in relevant|)
  }

  lemma RecallMeansHits(relevant: seq<string>, selected: seq<string>)
    ensures var r := RecallOf(relevant, selected);
            && (r.None? <==> relevant == [])
            && (r.Some? ==> r.value.numerator == |set x | x in relevant && x in selected|
                            && r.value.denominator == |set x | x in relevant|)
  {
    assert relevant != [] ==> relevant[0] in Elements(relevant);
    assert Elements(relevant) * Elements(selected) == set x | x in relevant && x in selected;
    assert Elements(relevant) == set x | x in relevant;
  }

  function RecallOf(relevant: seq<string>, selected: seq<string>): Option<Ratio> {
    var truth := Elements(relevant);
    if truth == {} then None else Some(Ratio(|truth * Elements(selected)|, |truth|))
  }

  // ----- what the greedy choice means

  /** The choices made before reaching a file ranked at `i`. */
  ghost function Earlier(ranked: seq<string>, selected: seq<string>, i: nat): seq<string>
    requires i <= |ranked|
  {
    if i == 0 then [] else
      var before := Earlier(ranked, selected, i - 1);
      if ranked[i - 1] in selected then before + [ranked[i - 1]] else before
  }

  lemma {:induction false} EarlierWithin(ranked: seq<string>, selected: seq<string>, i: nat)
    requires i <= |ranked|
    ensures forall f :: f in Earlier(ranked, selected, i) <==> f in ranked[..i] && f in selected
  {
    if i > 0 {
      EarlierWithin(ranked, selected, i - 1);
      assert ranked[..i] == ranked[..i - 1] + [ranked[i - 1]];
    }
  }

  /** `selected` lists, in rank order, exactly the existing files that still fit beside the selected files ranked
      before them. This leaves one possible selection (`GreedyUnique`). */
  ghost predicate IsGreedy(ranked: seq<string>, counts: LineCounts, budget: nat, selected: seq<string>) {
    && (forall f | f in selected :: f in counts)
    && selected == Earlier(ranked, selected, |ranked|)
    && forall i | 0 <= i < |ranked| ::
         ranked[i] in selected <==> ranked[i] in counts && Fits(ranked, counts, budget, selected, i)
  }

  ghost predicate Fits(ranked: seq<string>, counts: LineCounts, budget: nat, selected: seq<string>, i: nat)
    requires i < |ranked| && ranked[i] in counts
    requires forall f | f in selected :: f in counts
  {
    EarlierWithin(ranked, selected, i);
    Lines(Earlier(ranked, selected, i), counts) + counts[ranked[i]] <= budget
  }

  lemma {:induction false} EarlierAgree(a: seq<string>, b: seq<string>, s: seq<string>, t: seq<string>, i: nat)
    requires i <= |a| && i <= |b| && a[..i] == b[..i]
    requires forall k | 0 <= k < i :: a[k] in s <==> a[k] in t
    ensures Earlier(a, s, i) == Earlier(b, t, i)
  {
    if i > 0 {
      assert a[..i][i - 1] == b[..i][i - 1];
      assert a[..i - 1] == a[..i][..i - 1] && b[..i - 1] == b[..i][..i - 1];
      EarlierAgree(a, b, s, t, i - 1);
    }
  }

  /** Looking at one more file keeps the greedy property, whether the file is taken or skipped. */
  lemma GreedyStep(ranked: seq<string>, next: string, counts: LineCounts, budget: nat, selected: seq<string>)
    requires NoRepeats(ranked + [next])
    requires IsGreedy(ranked, counts, budget, selected)
    ensures var takes := next in counts && Lines(selected, counts) + counts[next] <= budget;
            IsGreedy(ranked + [next], counts, budget, if takes then selected + [next] else selected)
  {
    var longer := ranked + [next];
    var takes := next in counts && Lines(selected, counts) + counts[next] <= budget;
    var result := if takes then selected + [next] else selected;
    assert forall k | 0 <= k < |ranked| :: longer[k] == ranked[k] && ranked[k] != longer[|ranked|];
    EarlierWithin(ranked, selected, |ranked|);
    assert next !in ranked && next !in selected;
    forall i | 0 <= i <= |ranked|
      ensures Earlier(longer, result, i) == Earlier(ranked, selected, i)
    {
      EarlierAgree(longer, ranked, result, selected, i);
    }
    forall i | 0 <= i < |longer|
      ensures longer[i] in result <==> longer[i] in counts && Fits(longer, counts, budget, result, i)
    {
      if i < |ranked| {
        assert longer[i] in result <==> ranked[i] in selected;
        assert longer[i] in counts ==>
            (Fits(longer, counts, budget, result, i) <==> Fits(ranked, counts, budget, selected, i));
      }
    }
  }

  lemma GreedyUnique(ranked: seq<string>, counts: LineCounts, budget: nat, a: seq<string>, b: seq<string>)
    requires IsGreedy(ranked, counts, budget, a) && IsGreedy(ranked, counts, budget, b)
    ensures a == b
  {
    GreedyAgrees(ranked, counts, budget, a, b, |ranked|);
    EarlierAgree(ranked, ranked, a, b, |ranked|);
  }

  lemma {:induction false} GreedyAgrees(ranked: seq<string>, counts: LineCounts, budget: nat,
                                        a: seq<string>, b: seq<string>, n: nat)
    requires IsGreedy(ranked, counts, budget, a) && IsGreedy(ranked, counts, budget, b)
    requires n <= |ranked|
    ensures forall k | 0 <= k < n :: ranked[k] in a <==> ranked[k] in b
  {
    if n > 0 {
      GreedyAgrees(ranked, counts, budget, a, b, n - 1);
      EarlierAgree(ranked, ranked, a, b, n - 1);
    }
  }

  lemma {:induction false} EarlierLines(ranked: seq<string>, counts: LineCounts, selected: seq<string>, i: nat, j: nat)
    requires i <= j <= |ranked|
    requires forall f | f in selected :: f in counts
    ensures forall f | f in Earlier(ranked, selected, i) :: f in counts
    ensures forall f | f in Earlier(ranked, selected, j) :: f in counts
    ensures Lines(Earlier(ranked, selected, i), counts) <= Lines(Earlier(ranked, selected, j), counts)
  {
    EarlierWithin(ranked, selected, i);
    EarlierWithin(ranked, selected, j);
    if i < j {
      EarlierLines(ranked, counts, selected, i, j - 1);
      var before := Earlier(ranked, selected, j - 1);
      if ranked[j - 1] in selected {
        assert (before + [ranked[j - 1]])[..|before|] == before;
      }
    }
  }

  lemma {:induction false} EarlierIsSubsequence(ranked: seq<string>, selected: seq<string>, i: nat)
    requires i <= |ranked|
    ensures Subsequence(Earlier(ranked, selected, i), ranked[..i])
  {
    if i > 0 {
      var before := Earlier(ranked, selected, i - 1);
      EarlierIsSubsequence(ranked, selected, i - 1);
      assert ranked[..i] == ranked[..i - 1] + [ranked[i - 1]];
      if ranked[i - 1] in selected {
        SubsequenceTakes(before, ranked[..i - 1], ranked[i - 1]);
      } else {
        SubsequenceSkips(before, ranked[..i - 1], ranked[i - 1]);
      }
    }
  }

  /** Feasible and maximal: the selection is a subsequence of the ranking, uses at most the budget, and no skipped
      existing file fits beside the final selection. */
  lemma GreedyFeasibleAndMaximal(ranked: seq<string>, counts: LineCounts, budget: nat, selected: seq<string>)
    requires NoRepeats(ranked)
    requires IsGreedy(ranked, counts, budget, selected)
    ensures Lines(selected, counts) <= budget
    ensures forall f | f in ranked && f !in selected && f in counts :: Lines(selected, counts) + counts[f] > budget
    ensures NoRepeats(selected) && Subsequence(selected, ranked)
  {
    EarlierIsSubsequence(ranked, selected, |ranked|);
    GreedyFeasible(ranked, counts, budget, selected, |ranked|);
    EarlierWithin(ranked, selected, |ranked|);
    EarlierDistinct(ranked, selected, |ranked|);
    assert ranked[..|ranked|] == ranked;
    forall f | f in ranked && f !in selected && f in counts
      ensures Lines(selected, counts) + counts[f] > budget
    {
      var i :| 0 <= i < |ranked| && ranked[i] == f;
      assert !Fits(ranked, counts, budget, selected, i);
      EarlierLines(ranked, counts, selected, i, |ranked|);
    }
  }

  lemma {:induction false} GreedyFeasible(ranked: seq<string>, counts: LineCounts, budget: nat, selected: seq<string>, i: nat)
    requires IsGreedy(ranked, counts, budget, selected) && i <= |ranked|
    ensures forall f | f in Earlier(ranked, selected, i) :: f in counts
    ensures Lines(Earlier(ranked, selected, i), counts) <= budget
  {
    EarlierWithin(ranked, selected, i);
    if i > 0 {
      GreedyFeasible(ranked, counts, budget, selected, i - 1);
      var before := Earlier(ranked, selected, i - 1);
      if ranked[i - 1] in selected {
        assert Fits(ranked, counts, budget, selected, i - 1);
        assert (before + [ranked[i - 1]])[..|before|] == before;
      }
    }
  }

  lemma {:induction false} EarlierDistinct(ranked: seq<string>, selected: seq<string>, i: nat)
    requires NoRepeats(ranked) && i <= |ranked|
    ensures NoRepeats(Earlier(ranked, selected, i))
  {
    if i > 0 {
      EarlierDistinct(ranked, selected, i - 1);
      EarlierWithin(ranked, selected, i - 1);
    }
  }

  // ----- larger budgets

  lemma {:induction false} GreedyExists(ranked: seq<string>, counts: LineCounts, budget: nat) returns (selected: seq<string>)
    requires NoRepeats(ranked)
    ensures IsGreedy(ranked, counts, budget, selected)
  {
    if ranked == [] {
      selected := [];
    } else {
      var init, last := ranked[..|ranked| - 1], ranked[|ranked| - 1];
      assert init + [last] == ranked;
      var before := GreedyExists(init, counts, budget);
      GreedyStep(init, last, counts, budget, before);
      selected := if last in counts && Lines(before, counts) + counts[last] <= budget then before + [last] else before;
    }
  }

  /** All lines of the existing files ranked before `i`. */
  ghost function Total(ranked: seq<string>, counts: LineCounts, i: nat): nat
    requires i <= |ranked|
  {
    if i == 0 then 0
    else Total(ranked, counts, i - 1) + if ranked[i - 1] in counts then counts[ranked[i - 1]] else 0
  }

  /** The lines chosen before `i`. */
  ghost function Used(ranked: seq<string>, counts: LineCounts, selected: seq<string>, i: nat): nat
    requires i <= |ranked| && forall f | f in selected :: f in counts
  {
    EarlierWithin(ranked, selected, i);
    Lines(Earlier(ranked, selected, i), counts)
  }

  lemma UsedStep(ranked: seq<string>, counts: LineCounts, selected: seq<string>, i: nat)
    requires i < |ranked| && forall f | f in selected :: f in counts
    ensures Used(ranked, counts, selected, i + 1)
            == Used(ranked, counts, selected, i) + if ranked[i] in selected then counts[ranked[i]] else 0
  {
    var before := Earlier(ranked, selected, i);
    assert (before + [ranked[i]])[..|before|] == before;
  }

  lemma TakenExactly(ranked: seq<string>, counts: LineCounts, budget: nat, selected: seq<string>, i: nat)
    requires IsGreedy(ranked, counts, budget, selected) && i < |ranked|
    ensures ranked[i] in selected <==> ranked[i] in counts && Used(ranked, counts, selected, i) + counts[ranked[i]] <= budget
    ensures forall f | f in selected :: f in counts
  {
    assert ranked[i] in counts ==>
        (Fits(ranked, counts, budget, selected, i) <==> Used(ranked, counts, selected, i) + counts[ranked[i]] <= budget);
  }

  lemma {:induction false} UsedWithinTotal(ranked: seq<string>, counts: LineCounts, selected: seq<string>, i: nat)
    requires i <= |ranked| && forall f | f in selected :: f in counts
    ensures Used(ranked, counts, selected, i) <= Total(ranked, counts, i)
  {
    if i > 0 {
      UsedWithinTotal(ranked, counts, selected, i - 1);
      UsedStep(ranked, counts, selected, i - 1);
    }
  }

  /** While everything so far fits together, everything so far is taken. */
  lemma {:induction false} TakesAll(ranked: seq<string>, counts: LineCounts, budget: nat, selected: seq<string>, i: nat)
    requires IsGreedy(ranked, counts, budget, selected)
    requires i <= |ranked| && Total(ranked, counts, i) <= budget
    ensures forall k | 0 <= k < i && ranked[k] in counts :: ranked[k] in selected
    ensures Used(ranked, counts, selected, i) == Total(ranked, counts, i)
  {
    if i > 0 {
      TakesAll(ranked, counts, budget, selected, i - 1);
      UsedStep(ranked, counts, selected, i - 1);
      assert ranked[i - 1] in counts ==> Fits(ranked, counts, budget, selected, i - 1);
    }
  }

  /** Files with lines come in order of ascending length; files without lines may stand anywhere. */
  predicate Rising(ranked: seq<string>, counts: LineCounts) {
    forall i, j | 0 <= i < j < |ranked| && ranked[i] in counts && ranked[j] in counts ::
      counts[ranked[j]] == 0 || counts[ranked[i]] <= counts[ranked[j]]
  }

  /** A file that was taken although it has lines leaves nothing skipped before it. */
  lemma {:induction false} NothingSkipped(ranked: seq<string>, counts: LineCounts, budget: nat, selected: seq<string>,
                                          i: nat, k: nat)
    requires Rising(ranked, counts) && IsGreedy(ranked, counts, budget, selected)
    requires k <= i < |ranked| && ranked[i] in selected && counts[ranked[i]] > 0
    ensures Used(ranked, counts, selected, k) == Total(ranked, counts, k)
  {
    if k > 0 {
      NothingSkipped(ranked, counts, budget, selected, i, k - 1);
      UsedStep(ranked, counts, selected, k - 1);
      if ranked[k - 1] in counts && ranked[k - 1] !in selected {
        assert !Fits(ranked, counts, budget, selected, k - 1) && Fits(ranked, counts, budget, selected, i);
        EarlierLines(ranked, counts, selected, k - 1, i);
        assert false;
      }
    }
  }

  /** Over a rising ranking a larger budget keeps every file. */
  lemma RisingKeeps(ranked: seq<string>, counts: LineCounts, b: nat, c: nat, s: seq<string>, t: seq<string>, f: string)
    requires Rising(ranked, counts) && b <= c
    requires IsGreedy(ranked, counts, b, s) && IsGreedy(ranked, counts, c, t)
    requires f in s
    ensures f in t
  {
    EarlierWithin(ranked, s, |ranked|);
    var i :| 0 <= i < |ranked| && ranked[i] == f;
    assert Fits(ranked, counts, b, s, i);
    if counts[f] == 0 {
      GreedyFeasible(ranked, counts, c, t, i);
    } else {
      NothingSkipped(ranked, counts, b, s, i, i);
      UsedWithinTotal(ranked, counts, t, i);
    }
    assert Fits(ranked, counts, c, t, i);
  }

  /** A shorter file behind a longer one, with nothing between that has lines. */
  ghost predicate Dip(ranked: seq<string>, counts: LineCounts, i: nat, j: nat) {
    && i < j < |ranked| && ranked[i] in counts && ranked[j] in counts && 0 < counts[ranked[j]] < counts[ranked[i]]
    && forall k | i < k < j && ranked[k] in counts :: counts[ranked[k]] == 0
  }

  lemma {:induction false} DipBetween(ranked: seq<string>, counts: LineCounts, i: nat, j: nat) returns (a: nat, b: nat)
    requires i < j < |ranked| && ranked[i] in counts && ranked[j] in counts && 0 < counts[ranked[j]] < counts[ranked[i]]
    ensures Dip(ranked, counts, a, b)
    decreases j - i
  {
    if k: nat :| i < k < j && ranked[k] in counts && counts[ranked[k]] > 0 {
      if counts[ranked[k]] < counts[ranked[i]] {
        a, b := DipBetween(ranked, counts, i, k);
      } else {
        a, b := DipBetween(ranked, counts, k, j);
      }
    } else {
      a, b := i, j;
    }
  }

  lemma {:induction false} IdleBetween(ranked: seq<string>, counts: LineCounts, selected: seq<string>, i: nat, j: nat)
    requires i <= j <= |ranked| && forall f | f in selected :: f in counts
    requires forall k | i <= k < j && ranked[k] in counts :: counts[ranked[k]] == 0
    ensures Used(ranked, counts, selected, j) == Used(ranked, counts, selected, i)
  {
    if i < j {
      IdleBetween(ranked, counts, selected, i, j - 1);
      UsedStep(ranked, counts, selected, j - 1);
    }
  }

  /** With room for what comes before a dip, its longer file decides whether the shorter one still fits. */
  lemma AroundDip(ranked: seq<string>, counts: LineCounts, budget: nat, selected: seq<string>, i: nat, j: nat)
    requires Dip(ranked, counts, i, j) && IsGreedy(ranked, counts, budget, selected)
    requires Total(ranked, counts, i) <= budget
    ensures var all, long, short := Total(ranked, counts, i), counts[ranked[i]], counts[ranked[j]];
            ranked[j] in selected <==> all + (if all + long <= budget then long else 0) + short <= budget
  {
    TakesAll(ranked, counts, budget, selected, i);
    TakenExactly(ranked, counts, budget, selected, i);
    TakenExactly(ranked, counts, budget, selected, j);
    hide IsGreedy, Used, Total;
    UsedStep(ranked, counts, selected, i);
    IdleBetween(ranked, counts, selected, i + 1, j);
  }

  /** At a dip one budget takes the shorter file and a larger one the longer file in its place. */
  lemma DipSwaps(ranked: seq<string>, counts: LineCounts, i: nat, j: nat)
    returns (b: nat, c: nat, s: seq<string>, t: seq<string>)
    requires NoRepeats(ranked) && Dip(ranked, counts, i, j)
    ensures b <= c && IsGreedy(ranked, counts, b, s) && IsGreedy(ranked, counts, c, t)
    ensures ranked[j] in s && ranked[j] !in t
  {
    var all, long, short := Total(ranked, counts, i), counts[ranked[i]], counts[ranked[j]];
    b, c := all + short, all + long;
    s := GreedyExists(ranked, counts, b);
    t := GreedyExists(ranked, counts, c);
    AroundDip(ranked, counts, b, s, i, j);
    AroundDip(ranked, counts, c, t, i, j);
  }

  /** A larger budget never drops a selected file. */
  ghost predicate SelectionGrows(ranked: seq<string>, counts: LineCounts) {
    forall b: nat, c: nat, s, t | b <= c && IsGreedy(ranked, counts, b, s) && IsGreedy(ranked, counts, c, t) ::
      forall f | f in s :: f in t
  }

  /** A larger budget never lowers recall, whatever is relevant. */
  ghost predicate RecallGrows(ranked: seq<string>, counts: LineCounts) {
    forall b: nat, c: nat, s, t, relevant | b <= c && IsGreedy(ranked, counts, b, s) && IsGreedy(ranked, counts, c, t) ::
      NoLess(RecallOf(relevant, s), RecallOf(relevant, t))
  }

  /** Two recalls of one truth, the second no smaller; both are absent without truth. */
  predicate NoLess(a: Option<Ratio>, b: Option<Ratio>) {
    (a.None? && b.None?)
    || (a.Some? && b.Some? && a.value.denominator == b.value.denominator && a.value.numerator <= b.value.numerator)
  }

  lemma RecallKeeps(s: seq<string>, t: seq<string>, relevant: seq<string>)
    requires forall f | f in s :: f in t
    ensures NoLess(RecallOf(relevant, s), RecallOf(relevant, t))
  {
    SubsetSize(Elements(relevant) * Elements(s), Elements(relevant) * Elements(t));
  }

  lemma {:induction false} SubsetSize(a: set<string>, b: set<string>)
    requires a <= b
    ensures |a| <= |b|
  {
    assert b == a + (b - a);
  }

  lemma RecallLost(s: seq<string>, t: seq<string>, f: string)
    requires f in s && f !in t
    ensures !NoLess(RecallOf([f], s), RecallOf([f], t))
  {
    assert Elements([f]) == {f};
    assert {f} * Elements(s) == {f} && {f} * Elements(t) == {};
  }

  /** A larger budget never loses a selected file, and never lowers recall, exactly when the files that have lines are
      ranked in order of ascending length. */
  lemma BudgetMonotoneExactly(ranked: seq<string>, counts: LineCounts)
    requires NoRepeats(ranked)
    ensures SelectionGrows(ranked, counts) <==> Rising(ranked, counts)
    ensures RecallGrows(ranked, counts) <==> Rising(ranked, counts)
  {
    hide RecallOf, NoLess, IsGreedy;
    if Rising(ranked, counts) {
      forall b: nat, c: nat, s, t | b <= c && IsGreedy(ranked, counts, b, s) && IsGreedy(ranked, counts, c, t)
        ensures forall f | f in s :: f in t
        ensures forall relevant :: NoLess(RecallOf(relevant, s), RecallOf(relevant, t))
      {
        forall f | f in s ensures f in t { RisingKeeps(ranked, counts, b, c, s, t, f); }
        forall relevant ensures NoLess(RecallOf(relevant, s), RecallOf(relevant, t)) { RecallKeeps(s, t, relevant); }
      }
    } else {
      var i: nat, j: nat :| i < j < |ranked| && ranked[i] in counts && ranked[j] in counts
                            && 0 < counts[ranked[j]] < counts[ranked[i]];
      i, j := DipBetween(ranked, counts, i, j);
      var b, c, s, t := DipSwaps(ranked, counts, i, j);
      RecallLost(s, t, ranked[j]);
    }
  }

  /** The smallest ranking that does not rise: one more line lets a long irrelevant file crowd out the relevant one. */
  lemma LargerBudgetCanLoseRecall(wide: string, relevant: string)
    requires wide != relevant
    ensures var ranked, counts := [wide, relevant], map[wide := 4, relevant := 3];
            && IsGreedy(ranked, counts, 3, [relevant]) && IsGreedy(ranked, counts, 4, [wide])
            && RecallOf([relevant], [relevant]) == Some(Ratio(1, 1))
            && RecallOf([relevant], [wide]) == Some(Ratio(0, 1))
  {
    var ranked := [wide, relevant];
    assert Earlier(ranked, [relevant], 1) == [];
    assert Earlier(ranked, [relevant], 2) == Earlier(ranked, [relevant], 1) + [relevant];
    assert Earlier(ranked, [wide], 1) == [wide] && Earlier(ranked, [wide], 2) == [wide];
    assert Elements([relevant]) == {relevant} && Elements([wide]) == {wide};
    assert {relevant} * {relevant} == {relevant} && {relevant} * {wide} == {};
  }
}
