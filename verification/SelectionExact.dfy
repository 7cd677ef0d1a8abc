/** Which queries are accepted and exactly what they present, in terms of the document: its context keys, rows and route
    axes, with the defaults of the four profiles. */
module SelectionExact {
  import opened Prelude
  import opened QueryRankings

  // ----- the settings a document asks for

  /** A context that is absent or an object none of whose keys has a rejected value. */
  predicate Acceptable(context: Field<Context>) {
    && !context.Malformed?
    && (context.Present? ==>
        var c := context.value;
        && !c.profile.Malformed? && !c.maxSeedDistance.Malformed? && !c.candidate.Malformed? && !c.conservative.Malformed?
        && !c.quotas.Malformed? && !c.offsets.Malformed?
        && (c.quotas.Present? ==> !c.quotas.value.files.Malformed? && !c.quotas.value.tests.Malformed?)
        && (c.offsets.Present? ==> !c.offsets.value.files.Malformed? && !c.offsets.value.tests.Malformed?))
  }

  /** The profile named, `change` if none is. */
  predicate HasProfile(context: Field<Context>, p: Profile) {
    if context.Present? && context.value.profile.Present? then p == context.value.profile.value else p == Change
  }

  /** The largest distance presented: the one named, or that of the profile. */
  predicate HasLimit(context: Field<Context>, limit: Option<nat>) {
    if context.Present? && context.value.maxSeedDistance.Present? then limit == Some(context.value.maxSeedDistance.value)
    else if HasProfile(context, Exact) then limit == Some(0)
    else if HasProfile(context, Change) then limit == Some(1)
    else limit == None
  }

  /** Candidate routes are shown: as named, or by every profile but `exact`. */
  predicate ShowsCandidates(context: Field<Context>) {
    if context.Present? && context.value.candidate.Present? then context.value.candidate.value == Expand
    else !HasProfile(context, Exact)
  }

  /** Conservative routes are shown: as named, or by `audit` alone. */
  predicate ShowsConservative(context: Field<Context>) {
    if context.Present? && context.value.conservative.Present? then context.value.conservative.value == Expand
    else HasProfile(context, Audit)
  }

  /** At most this many rows of a kind: the number named, or 12, 24, 64 or all. */
  predicate HasQuota(context: Field<Context>, named: Field<nat>, available: nat, quota: nat) {
    if named.Present? then quota == named.value
    else if HasProfile(context, Exact) then quota == 12
    else if HasProfile(context, Change) then quota == 24
    else if HasProfile(context, Architecture) then quota == 64
    else quota == available
  }

  function NamedCount(context: Field<Context>, offset: bool, tests: bool): Field<nat> {
    if !context.Present? then Absent
    else
      var counts := if offset then context.value.offsets else context.value.quotas;
      if !counts.Present? then Absent else if tests then counts.value.tests else counts.value.files
  }

  // ----- what a document presents

  predicate Near(row: FileRow, limit: Option<nat>) {
    row.distance.Some? && (limit.Some? ==> row.distance.value <= limit.value)
  }

  /** The longest leading stretch of near rows. */
  ghost predicate IsLeading(all: seq<FileRow>, near: seq<FileRow>, limit: Option<nat>) {
    near <= all && (forall f | f in near :: Near(f, limit)) && (|near| < |all| ==> !Near(all[|near|], limit))
  }

  predicate Unrouted(t: TestRow) {
    t.provenance.None? && t.confidence.None? && t.evidenceScope.None? && t.targetRole.None? && t.target.None?
  }

  predicate Routed(t: TestRow) {
    t.provenance.Some? && t.confidence.Some? && t.evidenceScope.Some? && t.targetRole.Some? && t.target.Some?
  }

  /** The provenance and confidence of a route are among those asked for; `exact` asks for exact ones by itself. */
  predicate Asked(context: Field<Context>, t: TestRow)
    requires Routed(t)
  {
    && (context.Present? && context.value.provenance.Some? ==> t.provenance.value in context.value.provenance.value)
    && (if context.Present? && context.value.confidence.Some? then t.confidence.value in context.value.confidence.value
        else HasProfile(context, Exact) ==> t.confidence.value == "exact")
  }

  ghost predicate Far(context: Field<Context>, t: TestRow) {
    t.seedDistance.Some? && exists limit: nat :: HasLimit(context, Some(limit)) && t.seedDistance.value > limit
  }

  /** The route is shown, given its confidence. */
  predicate Shown(context: Field<Context>, t: TestRow)
    requires Routed(t)
  {
    (t.confidence.value == "candidate" ==> ShowsCandidates(context))
    && (t.confidence.value == "conservative" ==> ShowsConservative(context))
  }

  /** A test without a route is admitted; a route if it is asked for, not too far and shown. Asked for and too far, it is
      lost at the boundary of the projection, and otherwise to the evidence policy. */
  ghost predicate IsExclusion(context: Field<Context>, t: TestRow, e: Option<Exclusion>) {
    if Unrouted(t) then e == None
    else
      Routed(t)
      && if !Asked(context, t) then e == Some(EvidencePolicy)
         else if Far(context, t) then e == Some(ProjectionBoundary)
         else e == if Shown(context, t) then None else Some(EvidencePolicy)
  }

  /** `picked` are the values of the list that are there, in order. */
  ghost predicate Picks<T>(all: seq<Option<T>>, picked: seq<T>) {
    if all == [] then picked == []
    else if all[0].None? then Picks(all[1..], picked)
    else picked != [] && picked[0] == all[0].value && Picks(all[1..], picked[1..])
  }

  /** Rows `offset` to `offset + quota - 1`, as far as there are any. */
  predicate IsPage<T(==)>(all: seq<T>, page: seq<T>, offset: nat, quota: nat) {
    && |page| == (if |all| <= offset then 0 else if |all| - offset <= quota then |all| - offset else quota)
    && forall k | 0 <= k < |page| :: page[k] == all[offset + k]
  }

  // ----- the loops say the same

  lemma {:induction false} SomesPicked<T>(rows: seq<Option<T>>)
    ensures Picks(rows, Somes(rows))
  {
    if rows != [] {
      SomesPicked(rows[1..]);
      var rest := Somes(rows[1..]);
      assert rows[0].None? ==> [] + rest == rest;
      assert rows[0].Some? ==> ([rows[0].value] + rest)[1..] == rest;
    }
  }

  /** The rows that are not excluded. */
  function Marks<T>(rows: seq<T>, exclusions: seq<Option<Exclusion>>): (r: seq<Option<T>>)
    requires |rows| == |exclusions|
    ensures |r| == |rows|
    ensures forall i | 0 <= i < |r| :: r[i] == if exclusions[i].None? then Some(rows[i]) else None
  {
    seq(|rows|, i requires 0 <= i < |rows| => if exclusions[i].None? then Some(rows[i]) else None)
  }

  lemma {:induction false} KeptAreMarked<T>(rows: seq<T>, exclusions: seq<Option<Exclusion>>)
    requires |rows| == |exclusions|
    ensures Kept(rows, exclusions) == Somes(Marks(rows, exclusions))
  {
    if rows != [] {
      KeptAreMarked(rows[1..], exclusions[1..]);
      assert Marks(rows, exclusions)[1..] == Marks(rows[1..], exclusions[1..]);
    }
  }

  lemma SettingsMean(context: Field<Context>)
    requires SettingsOf(context).Ok?
    ensures var s := SettingsOf(context).value;
            && HasProfile(context, s.profile) && HasLimit(context, s.maxDistance)
            && (s.candidate == Expand <==> ShowsCandidates(context))
            && (s.conservative == Expand <==> ShowsConservative(context))
            && s.offsets.files == NamedCount(context, true, false) && s.offsets.tests == NamedCount(context, true, true)
            && s.quotas.files == NamedCount(context, false, false) && s.quotas.tests == NamedCount(context, false, true)
            && (s.provenance.Some? <==> context.Present? && context.value.provenance.Some?)
            && (s.provenance.Some? ==> s.provenance == context.value.provenance)
            && (s.confidence.Some? <==> context.Present? && context.value.confidence.Some?)
            && (s.confidence.Some? ==> s.confidence == context.value.confidence)
  {}

  lemma ExclusionMeans(context: Field<Context>, t: TestRow)
    requires SettingsOf(context).Ok?
    ensures TestExclusion(t, SettingsOf(context).value).Ok? <==> Unrouted(t) || Routed(t)
    ensures TestExclusion(t, SettingsOf(context).value).Ok? ==>
              IsExclusion(context, t, TestExclusion(t, SettingsOf(context).value).value)
  {
    var s := SettingsOf(context).value;
    SettingsMean(context);
    FarMeans(context, s.maxDistance, t);
    hide SettingsOf, HasLimit, ShowsCandidates, ShowsConservative, Far;
  }

  lemma FarMeans(context: Field<Context>, limit: Option<nat>, t: TestRow)
    requires HasLimit(context, limit)
    ensures Far(context, t) <==> t.seedDistance.Some? && limit.Some? && t.seedDistance.value > limit.value
  {
    assert forall other: nat :: HasLimit(context, Some(other)) ==> limit == Some(other);
  }

  /** Every row the loop reaches has a distance: each that follows near rows only. */
  ghost predicate DistancesKnown(rows: seq<FileRow>, limit: Option<nat>) {
    forall i | 0 <= i < |rows| && (forall j | 0 <= j < i :: Near(rows[j], limit)) :: rows[i].distance.Some?
  }

  lemma {:induction false} LeadingMeans(rows: seq<FileRow>, limit: Option<nat>)
    ensures EligibleFiles(rows, limit).Ok? <==> DistancesKnown(rows, limit)
    ensures EligibleFiles(rows, limit).Ok? ==> IsLeading(rows, EligibleFiles(rows, limit).value, limit)
  {
    if rows != [] {
      var rest := rows[1..];
      assert rows == [rows[0]] + rest;
      if Near(rows[0], limit) {
        LeadingMeans(rest, limit);
        if DistancesKnown(rows, limit) {
          forall i | 0 <= i < |rest| && (forall j | 0 <= j < i :: Near(rest[j], limit))
            ensures rest[i].distance.Some?
          {
            forall j | 0 <= j < i + 1 ensures Near(rows[j], limit) { if j > 0 { assert rows[j] == rest[j - 1]; } }
            assert rows[i + 1] == rest[i];
          }
        }
        if DistancesKnown(rest, limit) {
          forall i | 0 <= i < |rows| && (forall j | 0 <= j < i :: Near(rows[j], limit))
            ensures rows[i].distance.Some?
          {
            if i > 0 {
              forall j | 0 <= j < i - 1 ensures Near(rest[j], limit) { assert rest[j] == rows[j + 1]; }
              assert rows[i] == rest[i - 1];
            }
          }
        }
      } else {
        assert DistancesKnown(rows, limit) <==> rows[0].distance.Some?;
      }
    }
  }

  // ----- the whole selection

  /** Rows of a kind from the named offset, or the first, up to the quota. */
  ghost predicate Presented<T(!new)>(context: Field<Context>, tests: bool, eligible: seq<T>, page: seq<T>) {
    var offset := NamedCount(context, true, tests);
    exists quota: nat ::
      && HasQuota(context, NamedCount(context, false, tests), |eligible|, quota)
      && IsPage(eligible, page, if offset.Present? then offset.value else 0, quota)
  }

  /** What a document with these file and test rows selects. */
  ghost predicate Selects(context: Field<Context>, files: seq<FileRow>, tests: seq<TestRow>, s: Selection) {
    && s.canonicalFiles == files && s.canonicalTests == tests && |s.exclusions| == |tests|
    && (exists limit :: HasLimit(context, limit) && IsLeading(files, s.eligibleFiles, limit))
    && (forall i | 0 <= i < |tests| :: IsExclusion(context, tests[i], s.exclusions[i]))
    && Picks(Marks(tests, s.exclusions), s.eligibleTests)
    && Presented(context, false, s.eligibleFiles, s.presentedFiles)
    && Presented(context, true, s.eligibleTests, s.presentedTests)
  }

  lemma PageMeans<T>(all: seq<T>, offset: nat, quota: nat)
    ensures IsPage(all, Slice(all, offset, quota), offset, quota)
  {}

  lemma QuotaMeans<T(!new)>(context: Field<Context>, tests: bool, eligible: seq<T>, page: seq<T>)
    requires SettingsOf(context).Ok?
    requires var s := SettingsOf(context).value;
             var named := if tests then s.quotas.tests else s.quotas.files;
             var offset := if tests then s.offsets.tests else s.offsets.files;
             && !named.Malformed? && !offset.Malformed?
             && page == Slice(eligible, Or(offset, 0),
                              Or(named, if s.defaultQuota.None? then |eligible| else s.defaultQuota.value))
    ensures Presented(context, tests, eligible, page)
  {
    var s := SettingsOf(context).value;
    SettingsMean(context);
    var named := if tests then s.quotas.tests else s.quotas.files;
    var offset := if tests then s.offsets.tests else s.offsets.files;
    var quota := Or(named, if s.defaultQuota.None? then |eligible| else s.defaultQuota.value);
    PageMeans(eligible, Or(offset, 0), quota);
    assert HasQuota(context, named, |eligible|, quota);
    hide SettingsOf, Slice, IsPage, HasQuota, NamedCount;
  }

  lemma SettingsAccept(context: Field<Context>)
    ensures Acceptable(context) <==>
              SettingsOf(context).Ok?
              && var s := SettingsOf(context).value;
                 !s.quotas.files.Malformed? && !s.quotas.tests.Malformed? && !s.offsets.files.Malformed? && !s.offsets.tests.Malformed?
  {}

  lemma SelectMeans(context: Field<Context>, files: seq<FileRow>, tests: seq<TestRow>)
    requires SettingsOf(context).Ok?
    ensures var s := SettingsOf(context).value;
            var r := Select(files, tests, s);
            && (r.Ok? <==> Acceptable(context) && DistancesKnown(files, s.maxDistance) && forall t | t in tests :: Unrouted(t) || Routed(t))
            && (r.Ok? ==> Selects(context, files, tests, r.value))
  {
    var s := SettingsOf(context).value;
    SettingsMean(context);
    SettingsAccept(context);
    LeadingMeans(files, s.maxDistance);
    forall t | t in tests
      ensures TestExclusion(t, s).Ok? <==> Unrouted(t) || Routed(t)
      ensures TestExclusion(t, s).Ok? ==> IsExclusion(context, t, TestExclusion(t, s).value)
    {
      ExclusionMeans(context, t);
    }
    hide SettingsOf, EligibleFiles, TestExclusion, IsExclusion, Slice, HasLimit, Acceptable, Unrouted, Routed, IsLeading,
         DistancesKnown, Presented, Kept, NamedCount;
    var r := Select(files, tests, s);
    if r.Ok? {
      QuotaMeans(context, false, r.value.eligibleFiles, r.value.presentedFiles);
      QuotaMeans(context, true, r.value.eligibleTests, r.value.presentedTests);
      KeptAreMarked(tests, r.value.exclusions);
      SomesPicked(Marks(tests, r.value.exclusions));
    }
  }

  /** A query is accepted exactly when its context has no rejected value, every file row reached within the distance limit
      has a distance, and every test row has all route axes or none; it then presents exactly what its context, with the
      profile's defaults, asks of its rows. */
  lemma SelectionExactly(query: Query)
    returns (files: seq<FileRow>, tests: seq<TestRow>)
    ensures Picks(query.files, files) && Picks(query.tests, tests)
    ensures SelectionOf(query).Ok? <==>
              && Acceptable(query.context)
              && (exists limit :: HasLimit(query.context, limit) && DistancesKnown(files, limit))
              && forall t | t in tests :: Unrouted(t) || Routed(t)
    ensures SelectionOf(query).Ok? ==> Selects(query.context, files, tests, SelectionOf(query).value)
  {
    files, tests := Somes(query.files), Somes(query.tests);
    SomesPicked(query.files);
    SomesPicked(query.tests);
    SettingsAccept(query.context);
    hide SettingsOf, Select, Selects, Picks, DistancesKnown, Acceptable, Unrouted, Routed;
    if SettingsOf(query.context).Ok? {
      SelectMeans(query.context, files, tests);
      SettingsMean(query.context);
      OneLimit(query.context, SettingsOf(query.context).value.maxDistance);
    }
  }

  lemma OneLimit(context: Field<Context>, limit: Option<nat>)
    requires HasLimit(context, limit)
    ensures forall other | HasLimit(context, other) :: other == limit
  {}
}
