/** Recall, reciprocal rank and distractor ratio of one ranking, as exact ratios. */
module RankingMetrics {
  import opened Prelude
  import opened Ordering
  import opened Dedup

  datatype Ratio = Ratio(numerator: nat, denominator: nat)

  /** The ratios are `None` where the program stores null. */
  datatype Metrics = Metrics(returned: nat, truth: nat,
                             recallAt5: Option<Ratio>, recallAt10: Option<Ratio>, recallAt20: Option<Ratio>,
                             recallAll: Option<Ratio>, reciprocalRank: Option<Ratio>, distractors: Option<Ratio>)

  function Take<T>(s: seq<T>, n: nat): seq<T> {
    if |s| <= n then s else s[..n]
  }

  /** One-based rank of the first value of `ranked` that lies in `truth`. */
  function FirstHit(ranked: seq<string>, truth: set<string>): (r: Option<nat>)
    ensures r.Some? ==> 1 <= r.value <= |ranked| && ranked[r.value - 1] in truth
                        && forall i | 0 <= i < r.value - 1 :: ranked[i] !in truth
    ensures r.None? <==> forall x | x in ranked :: x !in truth
  {
    if ranked == [] then None
    else if ranked[0] in truth then Some(1)
    else
      var rest := FirstHit(ranked[1..], truth);
      assert ranked == [ranked[0]] + ranked[1..];
      if rest.None? then None else Some(rest.value + 1)
  }

  function RankMetrics(ranked: seq<string>, relevant: seq<string>): (m: Metrics)
    ensures relevant != [] ==> m.recallAt5.Some? && m.recallAt10.Some? && m.recallAt20.Some? && m.recallAll.Some?
                               && m.reciprocalRank.Some?
    ensures relevant == [] ==> m.recallAll.None? && m.reciprocalRank.None? && m.distractors.None?
  {
    assert relevant != [] ==> relevant[0] in Elements(relevant);
    var unique := Distinct(ranked);
    var truth := Elements(relevant);
    if truth == {} then Metrics(|unique|, 0, None, None, None, None, None, None) else
      var hits := truth * Elements(unique);
      var first := FirstHit(unique, truth);
      HitsAmongReturned(unique, truth);
      Metrics(|unique|, |truth|,
              Some(Ratio(|truth * Elements(Take(unique, 5))|, |truth|)),
              Some(Ratio(|truth * Elements(Take(unique, 10))|, |truth|)),
              Some(Ratio(|truth * Elements(Take(unique, 20))|, |truth|)),
              Some(Ratio(|hits|, |truth|)),
              Some(if first.None? then Ratio(0, 1) else Ratio(1, first.value)),
              if unique == [] then None else Some(Ratio(|unique| - |hits|, |unique|)))
  }

  lemma HitsAmongReturned(unique: seq<string>, truth: set<string>)
    ensures |truth * Elements(unique)| <= |unique|
  {
    DistinctCount(unique);
    SubsetSize(truth * Elements(unique), Elements(unique));
  }

  lemma {:induction false} DistinctCount<T>(s: seq<T>)
    ensures |Elements(s)| <= |s|
    ensures NoRepeats(s) ==> |Elements(s)| == |s|
  {
    if s != [] {
      var init, last := s[..|s| - 1], s[|s| - 1];
      DistinctCount(init);
      assert s == init + [last];
      assert Elements(s) == Elements(init) + {last};
      assert NoRepeats(s) ==> NoRepeats(init) && last !in init;
    }
  }

  lemma {:induction false} SubsetSize<T>(a: set<T>, b: set<T>)
    requires a <= b
    ensures |a| <= |b|
    ensures |a| == |b| <==> a == b
  {
    if a != {} {
      var x :| x in a;
      SubsetSize(a - {x}, b - {x});
    }
  }

  /** Recall never drops as the cutoff grows and never exceeds one. */
  lemma RecallGrowsWithCutoff(ranked: seq<string>, relevant: seq<string>)
    requires relevant != []
    ensures var m := RankMetrics(ranked, relevant);
            m.recallAt5.value.numerator <= m.recallAt10.value.numerator <= m.recallAt20.value.numerator
            <= m.recallAll.value.numerator <= m.truth
  {
    var unique, truth := Distinct(ranked), Elements(relevant);
    assert relevant[0] in truth;
    TakeGrows(unique, truth, 5, 10);
    TakeGrows(unique, truth, 10, 20);
    TakeGrows(unique, truth, 20, |unique| + 20);
    SubsetSize(truth * Elements(unique), truth);
  }

  lemma TakeGrows(s: seq<string>, truth: set<string>, m: nat, n: nat)
    requires m <= n
    ensures |truth * Elements(Take(s, m))| <= |truth * Elements(Take(s, n))|
  {
    forall x | x in Take(s, m)
      ensures x in Take(s, n)
    {
      var i :| 0 <= i < |Take(s, m)| && Take(s, m)[i] == x;
      assert Take(s, n)[i] == x;
    }
    SubsetSize(truth * Elements(Take(s, m)), truth * Elements(Take(s, n)));
  }

  /** The reciprocal rank is positive exactly when something relevant was returned, and a cutoff saw a hit exactly
      when the first hit ranks within it. */
  lemma ReciprocalRankWitnessesHits(ranked: seq<string>, relevant: seq<string>)
    requires relevant != []
    ensures var m := RankMetrics(ranked, relevant);
            && (m.reciprocalRank.value.numerator > 0 <==> m.recallAll.value.numerator > 0)
            && (m.recallAt5.value.numerator > 0 <==>
                m.reciprocalRank.value.numerator > 0 && m.reciprocalRank.value.denominator <= 5)
  {
    var unique, truth := Distinct(ranked), Elements(relevant);
    assert relevant[0] in truth;
    HitWithin(unique, truth, 5);
    HitWithin(unique, truth, |unique|);
  }

  lemma HitWithin(s: seq<string>, truth: set<string>, n: nat)
    ensures |truth * Elements(Take(s, n))| > 0 <==> FirstHit(s, truth).Some? && FirstHit(s, truth).value <= n
  {
    var first, hits := FirstHit(s, truth), truth * Elements(Take(s, n));
    if first.Some? && first.value <= n {
      assert Take(s, n)[first.value - 1] in hits;
    } else {
      assert hits == {} by {
        forall x | x in Take(s, n)
          ensures x !in truth
        {
          var i :| 0 <= i < |Take(s, n)| && Take(s, n)[i] == x;
          assert s[i] == x && x in s;
        }
      }
    }
  }

  /** Every returned value is either a hit or a distractor. */
  lemma HitsAndDistractors(ranked: seq<string>, relevant: seq<string>)
    requires relevant != [] && ranked != []
    ensures var m := RankMetrics(ranked, relevant);
            && m.distractors.Some?
            && m.distractors.value.numerator == |set x | x in ranked && x !in relevant|
            && m.distractors.value.numerator + m.recallAll.value.numerator == m.returned
  {
    var unique, truth := Distinct(ranked), Elements(relevant);
    assert relevant[0] in truth;
    DistinctMembers(ranked);
    DistinctCount(unique);
    assert ranked[0] in unique;
    var hits, misses := truth * Elements(unique), set x | x in ranked && x !in relevant;
    assert hits + misses == Elements(unique) && hits !! misses;
  }

  /** Hits among the first `k` distinct values, over the distinct truth. */
  ghost predicate IsRecall(r: Ratio, unique: seq<string>, relevant: seq<string>, k: nat) {
    && r.numerator == |(set x | x in relevant && (exists i :: 0 <= i < |unique| && i < k && unique[i] == x))|
    && r.denominator == |set x | x in relevant|
  }

  lemma RecallMeans(unique: seq<string>, relevant: seq<string>, k: nat)
    ensures IsRecall(Ratio(|Elements(relevant) * Elements(Take(unique, k))|, |Elements(relevant)|), unique, relevant, k)
  {
    var hits := set x | x in relevant && (exists i :: 0 <= i < |unique| && i < k && unique[i] == x);
    forall x
      ensures x in hits <==> x in Elements(relevant) * Elements(Take(unique, k))
    {
      if x in hits {
        var i :| 0 <= i < |unique| && i < k && unique[i] == x;
        assert Take(unique, k)[i] == x;
      }
      if x in Take(unique, k) {
        var i :| 0 <= i < |Take(unique, k)| && Take(unique, k)[i] == x;
        assert unique[i] == x;
      }
    }
    assert hits == Elements(relevant) * Elements(Take(unique, k));
    assert Elements(relevant) == set x | x in relevant;
  }

  lemma RecallsExactly(ranked: seq<string>, relevant: seq<string>)
    requires relevant != []
    ensures var m, unique := RankMetrics(ranked, relevant), Distinct(ranked);
            && m.recallAt5.Some? && IsRecall(m.recallAt5.value, unique, relevant, 5)
            && m.recallAt10.Some? && IsRecall(m.recallAt10.value, unique, relevant, 10)
            && m.recallAt20.Some? && IsRecall(m.recallAt20.value, unique, relevant, 20)
            && m.recallAll.Some? && IsRecall(m.recallAll.value, unique, relevant, |unique|)
  {
    var unique := Distinct(ranked);
    assert relevant[0] in Elements(relevant);
    RecallMeans(unique, relevant, 5);
    RecallMeans(unique, relevant, 10);
    RecallMeans(unique, relevant, 20);
    RecallMeans(unique, relevant, |unique|);
    assert Take(unique, |unique|) == unique;
    hide IsRecall, Distinct, Take, Elements;
  }

  lemma CountsExactly(ranked: seq<string>, relevant: seq<string>)
    ensures var m, unique := RankMetrics(ranked, relevant), Distinct(ranked);
            && m.returned == |unique| && m.truth == |set x | x in relevant|
            && (m.distractors.None? <==> ranked == [] || relevant == [])
            && (m.distractors.Some? ==>
                  m.distractors.value.denominator == |unique|
                  && m.distractors.value.numerator == |set x | x in ranked && x !in relevant|)
  {
    if relevant != [] && ranked != [] { HitsAndDistractors(ranked, relevant); }
    CountsStored(ranked, relevant);
    hide RankMetrics, Distinct;
  }

  lemma CountsStored(ranked: seq<string>, relevant: seq<string>)
    ensures var m, unique := RankMetrics(ranked, relevant), Distinct(ranked);
            && m.returned == |unique| && m.truth == |set x | x in relevant|
            && (m.distractors.None? <==> ranked == [] || relevant == [])
            && (m.distractors.Some? ==> m.distractors.value.denominator == |unique|)
  {
    DistinctMembers(ranked);
    assert ranked != [] ==> ranked[0] in Distinct(ranked);
    assert Elements(relevant) == set x | x in relevant;
    assert relevant != [] ==> relevant[0] in Elements(relevant);
    hide Distinct, Take, Elements, FirstHit;
  }

  lemma ReciprocalExactly(ranked: seq<string>, relevant: seq<string>)
    requires relevant != []
    ensures var m, unique := RankMetrics(ranked, relevant), Distinct(ranked);
            && m.reciprocalRank.Some?
            && (m.reciprocalRank == Some(Ratio(0, 1)) <==> forall x | x in unique :: x !in relevant)
            && forall n: nat | 1 <= n <= |unique| && unique[n - 1] in relevant
                               && (forall i | 0 <= i < n - 1 :: unique[i] !in relevant) ::
                 m.reciprocalRank == Some(Ratio(1, n))
  {
    var unique, truth := Distinct(ranked), Elements(relevant);
    assert relevant[0] in truth;
    FirstRelevant(unique, relevant, truth);
    hide Distinct, Take, Elements, FirstHit;
  }

  /** Every stored metric, over the distinct returned values in order of first occurrence: there are none without truth;
      otherwise the recalls at 5, 10, 20 and over everything, the reciprocal of the first relevant rank, or zero, and the
      share of values that are not relevant, if anything was returned. */
  lemma RankMetricsExactly(ranked: seq<string>, relevant: seq<string>)
    ensures var m, unique := RankMetrics(ranked, relevant), Distinct(ranked);
            && m.returned == |unique| && m.truth == |set x | x in relevant|
            && if relevant == [] then
                 m.recallAt5.None? && m.recallAt10.None? && m.recallAt20.None? && m.recallAll.None?
                 && m.reciprocalRank.None? && m.distractors.None?
               else
                 && m.recallAt5.Some? && IsRecall(m.recallAt5.value, unique, relevant, 5)
                 && m.recallAt10.Some? && IsRecall(m.recallAt10.value, unique, relevant, 10)
                 && m.recallAt20.Some? && IsRecall(m.recallAt20.value, unique, relevant, 20)
                 && m.recallAll.Some? && IsRecall(m.recallAll.value, unique, relevant, |unique|)
                 && m.reciprocalRank.Some?
                 && (m.reciprocalRank == Some(Ratio(0, 1)) <==> forall x | x in unique :: x !in relevant)
                 && (forall n: nat | 1 <= n <= |unique| && unique[n - 1] in relevant
                                     && (forall i | 0 <= i < n - 1 :: unique[i] !in relevant) ::
                       m.reciprocalRank == Some(Ratio(1, n)))
                 && (m.distractors.None? <==> ranked == [])
                 && (m.distractors.Some? ==>
                       m.distractors.value.denominator == |unique|
                       && m.distractors.value.numerator == |set x | x in ranked && x !in relevant|)
  {
    CountsExactly(ranked, relevant);
    if relevant == [] {
      NoTruth(ranked);
    } else {
      RecallsExactly(ranked, relevant);
      ReciprocalExactly(ranked, relevant);
    }
    hide RankMetrics, IsRecall, Distinct;
  }

  lemma NoTruth(ranked: seq<string>)
    ensures var m := RankMetrics(ranked, []);
            && m.recallAt5.None? && m.recallAt10.None? && m.recallAt20.None? && m.recallAll.None?
            && m.reciprocalRank.None? && m.distractors.None?
  {
    assert Elements<string>([]) == {};
  }

  lemma FirstRelevant(unique: seq<string>, relevant: seq<string>, truth: set<string>)
    requires forall x :: x in truth <==> x in relevant
    ensures FirstHit(unique, truth).None? <==> forall x | x in unique :: x !in relevant
    ensures forall n: nat | 1 <= n <= |unique| && unique[n - 1] in relevant
                            && (forall i | 0 <= i < n - 1 :: unique[i] !in relevant) ::
              FirstHit(unique, truth) == Some(n)
  {
    var first := FirstHit(unique, truth);
    forall n: nat | 1 <= n <= |unique| && unique[n - 1] in relevant && forall i | 0 <= i < n - 1 :: unique[i] !in relevant
      ensures first == Some(n)
    {
      assert unique[n - 1] in unique;
      assert first.value == n;
    }
  }
}
