/** Laws of the Query selection: what each profile admits, what widening one does, and paging. */
module ProfileWidening {
  import opened Prelude
  import opened Dedup
  import opened QueryRankings

  function Width(profile: Profile): nat {
    match profile
    case Exact => 0
    case Change => 1
    case Architecture => 2
    case Audit => 3
  }

  /** The query with its profile replaced and every explicit override kept. */
  function WithProfile(query: Query, profile: Profile): Query
    requires query.context.Present?
  {
    query.(context := Present(query.context.value.(profile := Present(profile))))
  }

  /** The query asking for file page number `page` of size `size`. */
  function WithFilePage(query: Query, size: nat, page: nat): Query
    requires query.context.Present?
  {
    var c := query.context.value;
    query.(context := Present(c.(quotas := Present(Or(c.quotas, NO_COUNTS).(files := Present(size))),
                                 offsets := Present(Or(c.offsets, NO_COUNTS).(files := Present(page * size))))))
  }

  /** The query asking for test page number `page` of size `size`. */
  function WithTestPage(query: Query, size: nat, page: nat): Query
    requires query.context.Present?
  {
    var c := query.context.value;
    query.(context := Present(c.(quotas := Present(Or(c.quotas, NO_COUNTS).(tests := Present(size))),
                                 offsets := Present(Or(c.offsets, NO_COUNTS).(tests := Present(page * size))))))
  }

  /** A limit at least as permissive as another. */
  predicate AtLeast(wide: Option<nat>, narrow: Option<nat>) {
    wide.None? || (narrow.Some? && narrow.value <= wide.value)
  }

  lemma {:induction false} EligibleFilesGrow(rows: seq<FileRow>, narrow: Option<nat>, wide: Option<nat>)
    requires AtLeast(wide, narrow)
    requires EligibleFiles(rows, wide).Ok?
    ensures EligibleFiles(rows, narrow).Ok?
    ensures EligibleFiles(rows, narrow).value <= EligibleFiles(rows, wide).value
  {
    if rows != [] && WithinDistance(rows[0].distance.value, wide) {
      EligibleFilesGrow(rows[1..], narrow, wide);
    }
  }

  /** The rows a wider setting accepts include those a narrower one accepts, one row at a time. */
  lemma TestAdmissionGrows(row: TestRow, narrow: Settings, wide: Settings)
    requires Wider(narrow, wide)
    ensures TestExclusion(row, wide).Ok? <==> TestExclusion(row, narrow).Ok?
    ensures TestExclusion(row, narrow) == Ok(None) ==> TestExclusion(row, wide) == Ok(None)
  {}

  ghost predicate Wider(narrow: Settings, wide: Settings) {
    && Width(narrow.profile) <= Width(wide.profile)
    && AtLeast(wide.maxDistance, narrow.maxDistance)
    && narrow.provenance == wide.provenance && narrow.confidence == wide.confidence
    && (narrow.candidate == wide.candidate
        || (narrow.candidate == CandidateOf(narrow.profile) && wide.candidate == CandidateOf(wide.profile)))
    && (narrow.conservative == wide.conservative
        || (narrow.conservative == ConservativeOf(narrow.profile) && wide.conservative == ConservativeOf(wide.profile)))
    && narrow.quotas == wide.quotas && narrow.offsets == wide.offsets
    && narrow.defaultQuota == QuotaOf(narrow.profile) && wide.defaultQuota == QuotaOf(wide.profile)
  }

  lemma {:induction false} KeptGrows(rows: seq<TestRow>, narrow: seq<Option<Exclusion>>, wide: seq<Option<Exclusion>>)
    requires |narrow| == |wide| == |rows|
    requires forall i | 0 <= i < |rows| :: narrow[i].None? ==> wide[i].None?
    ensures Subsequence(Kept(rows, narrow), Kept(rows, wide))
  {
    if rows != [] {
      KeptGrows(rows[1..], narrow[1..], wide[1..]);
      var a, b := Kept(rows[1..], narrow[1..]), Kept(rows[1..], wide[1..]);
      if narrow[0].None? {
        assert ([rows[0]] + a)[1..] == a && ([rows[0]] + b)[1..] == b;
      } else if wide[0].None? {
        assert ([rows[0]] + b)[1..] == b;
      }
    }
  }

  lemma SlicePrefix<T>(a: seq<T>, b: seq<T>, offset: nat, m: nat, n: nat)
    requires a <= b
    requires m <= n || |b| <= n
    ensures Slice(a, offset, m) <= Slice(b, offset, n)
  {}

  /** Widening a profile never loses evidence: with the overrides fixed, eligible files and tests only grow,
      the presented files of the narrower profile are the first ones the wider profile presents, and a query the
      wider profile accepts is accepted by the narrower one. */
  lemma WideningKeepsEvidence(query: Query, narrow: Profile, wide: Profile)
    requires query.context.Present?
    requires Width(narrow) <= Width(wide)
    requires SelectionOf(WithProfile(query, wide)).Ok?
    ensures SelectionOf(WithProfile(query, narrow)).Ok?
    ensures var n, w := SelectionOf(WithProfile(query, narrow)).value, SelectionOf(WithProfile(query, wide)).value;
            && n.eligibleFiles <= w.eligibleFiles
            && n.presentedFiles <= w.presentedFiles
            && Subsequence(n.eligibleTests, w.eligibleTests)
            && n.canonicalFiles == w.canonicalFiles && n.canonicalTests == w.canonicalTests
  {
    var files, tests := Somes(query.files), Somes(query.tests);
    var ns := SettingsOf(WithProfile(query, narrow).context).value;
    var ws := SettingsOf(WithProfile(query, wide).context).value;
    assert Wider(ns, ws);
    hide Wider, Subsequence, EligibleFiles, TestExclusion, Kept, CandidateOf, ConservativeOf;
    EligibleFilesGrow(files, ns.maxDistance, ws.maxDistance);
    forall row | row in tests
      ensures TestExclusion(row, ns).Ok?
    {
      TestAdmissionGrows(row, ns, ws);
    }
    var ne, we := TestExclusions(tests, ns).value, TestExclusions(tests, ws).value;
    forall i | 0 <= i < |tests|
      ensures ne[i].None? ==> we[i].None?
    {
      TestAdmissionGrows(tests[i], ns, ws);
    }
    KeptGrows(tests, ne, we);
    var nf, wf := EligibleFiles(files, ns.maxDistance).value, EligibleFiles(files, ws.maxDistance).value;
    var offset := Or(ns.offsets.files, 0);
    var nq := Or(ns.quotas.files, if ns.defaultQuota.None? then |nf| else ns.defaultQuota.value);
    var wq := Or(ws.quotas.files, if ws.defaultQuota.None? then |wf| else ws.defaultQuota.value);
    SlicePrefix(nf, wf, offset, nq, wq);
  }

  // ----- paging

  function Min(a: nat, b: nat): nat { if a < b then a else b }

  /** Pages 0 to `pages - 1`, joined in order. */
  function Joined<T>(page: nat -> seq<T>, pages: nat): seq<T> {
    if pages == 0 then [] else Joined(page, pages - 1) + page(pages - 1)
  }

  lemma NextPage<T>(s: seq<T>, start: nat, size: nat)
    ensures s[..Min(start, |s|)] + Slice(s, start, size) == s[..Min(start + size, |s|)]
  {}

  /** Consecutive slices of one list, one after another, are its leading part. */
  lemma {:induction false} SlicesJoin<T>(s: seq<T>, page: nat -> seq<T>, size: nat, pages: nat)
    requires forall p: nat :: page(p) == Slice(s, p * size, size)
    ensures Joined(page, pages) == s[..Min(pages * size, |s|)]
  {
    if pages > 0 {
      SlicesJoin(s, page, size, pages - 1);
      assert pages * size == (pages - 1) * size + size;
      NextPage(s, (pages - 1) * size, size);
      assert page(pages - 1) == Slice(s, (pages - 1) * size, size);
    }
  }

  /** The file rows on one page, if the query is accepted. */
  function FilePage(query: Query, size: nat, page: nat): seq<FileRow> {
    if query.context.Present? then
      var s := SelectionOf(WithFilePage(query, size, page));
      if s.Ok? then s.value.presentedFiles else []
    else []
  }

  /** The test rows on one page, if the query is accepted. */
  function TestPage(query: Query, size: nat, page: nat): seq<TestRow> {
    if query.context.Present? then
      var s := SelectionOf(WithTestPage(query, size, page));
      if s.Ok? then s.value.presentedTests else []
    else []
  }

  /** The query is accepted when asked for its first file page, and these are its eligible files. */
  ghost predicate PagesFiles(query: Query, size: nat, eligible: seq<FileRow>) {
    query.context.Present? && 0 < size
    && var s := SelectionOf(WithFilePage(query, size, 0)); s.Ok? && s.value.eligibleFiles == eligible
  }

  ghost predicate PagesTests(query: Query, size: nat, eligible: seq<TestRow>) {
    query.context.Present? && 0 < size
    && var s := SelectionOf(WithTestPage(query, size, 0)); s.Ok? && s.value.eligibleTests == eligible
  }

  ghost predicate AllFilePagesAccepted(query: Query, size: nat) {
    query.context.Present? && forall p: nat :: SelectionOf(WithFilePage(query, size, p)).Ok?
  }

  ghost predicate AllTestPagesAccepted(query: Query, size: nat) {
    query.context.Present? && forall p: nat :: SelectionOf(WithTestPage(query, size, p)).Ok?
  }

  /** Reading page after page loses, repeats and reorders nothing: every file page is accepted, the pages read so far are
      exactly the leading eligible rows, and enough pages give all of them. */
  lemma PagesConcatenate(query: Query, size: nat, eligible: seq<FileRow>, pages: nat)
    requires PagesFiles(query, size, eligible)
    ensures AllFilePagesAccepted(query, size)
    ensures Joined(p => FilePage(query, size, p), pages) == eligible[..Min(pages * size, |eligible|)]
    ensures |eligible| <= pages * size ==> Joined(p => FilePage(query, size, p), pages) == eligible
  {
    hide SelectionOf, FilePage;
    forall p: nat
      ensures SelectionOf(WithFilePage(query, size, p)).Ok?
      ensures FilePage(query, size, p) == Slice(eligible, p * size, size)
    {
      FilePageAccepted(query, size, p);
    }
    SlicesJoin(eligible, p => FilePage(query, size, p), size, pages);
  }

  /** The same for test pages. */
  lemma TestPagesConcatenate(query: Query, size: nat, eligible: seq<TestRow>, pages: nat)
    requires PagesTests(query, size, eligible)
    ensures AllTestPagesAccepted(query, size)
    ensures Joined(p => TestPage(query, size, p), pages) == eligible[..Min(pages * size, |eligible|)]
    ensures |eligible| <= pages * size ==> Joined(p => TestPage(query, size, p), pages) == eligible
  {
    hide SelectionOf, TestPage;
    forall p: nat
      ensures SelectionOf(WithTestPage(query, size, p)).Ok?
      ensures TestPage(query, size, p) == Slice(eligible, p * size, size)
    {
      TestPageAccepted(query, size, p);
    }
    SlicesJoin(eligible, p => TestPage(query, size, p), size, pages);
  }

  lemma FilePageAccepted(query: Query, size: nat, page: nat)
    requires query.context.Present?
    requires SelectionOf(WithFilePage(query, size, 0)).Ok?
    ensures SelectionOf(WithFilePage(query, size, page)).Ok?
    ensures FilePage(query, size, page)
            == Slice(SelectionOf(WithFilePage(query, size, 0)).value.eligibleFiles, page * size, size)
  {
    var zero, other := SettingsOf(WithFilePage(query, size, 0).context).value,
                       SettingsOf(WithFilePage(query, size, page).context).value;
    SameAdmission(Somes(query.tests), zero, other);
  }

  lemma TestPageAccepted(query: Query, size: nat, page: nat)
    requires query.context.Present?
    requires SelectionOf(WithTestPage(query, size, 0)).Ok?
    ensures SelectionOf(WithTestPage(query, size, page)).Ok?
    ensures TestPage(query, size, page)
            == Slice(SelectionOf(WithTestPage(query, size, 0)).value.eligibleTests, page * size, size)
  {
    var zero, other := SettingsOf(WithTestPage(query, size, 0).context).value,
                       SettingsOf(WithTestPage(query, size, page).context).value;
    SameAdmission(Somes(query.tests), zero, other);
  }

  lemma {:induction false} SameAdmission(rows: seq<TestRow>, a: Settings, b: Settings)
    requires a.(offsets := b.offsets) == b
    ensures TestExclusions(rows, a) == TestExclusions(rows, b)
  {
    if rows != [] { SameAdmission(rows[1..], a, b); }
  }

  // ----- what is admitted

  /** Provenance and confidence are among the allowed ones; the exact profile allows only `exact` by itself. */
  predicate EvidenceAllowed(row: TestRow, s: Settings)
    requires RouteAxesComplete(row)
  {
    && (s.provenance.Some? ==> row.provenance.value in s.provenance.value)
    && (if s.confidence.Some? then row.confidence.value in s.confidence.value
        else s.profile.Exact? ==> row.confidence.value == "exact")
  }

  predicate TooDistant(row: TestRow, s: Settings) {
    row.seedDistance.Some? && s.maxDistance.Some? && row.seedDistance.value > s.maxDistance.value
  }

  /** A routed test is admitted exactly when its evidence is allowed, its distance within the limit and its confidence
      not collapsed; it is lost at the projection boundary exactly when the evidence is allowed but the distance is not. */
  lemma TestsAdmittedExactly(row: TestRow, s: Settings)
    ensures RouteAxesAbsent(row) ==> TestExclusion(row, s) == Ok(None)
    ensures TestExclusion(row, s).Err? <==> !RouteAxesAbsent(row) && !RouteAxesComplete(row)
    ensures RouteAxesComplete(row) ==>
              && (TestExclusion(row, s) == Ok(None) <==>
                  && EvidenceAllowed(row, s) && !TooDistant(row, s)
                  && (row.confidence.value == "candidate" ==> s.candidate.Expand?)
                  && (row.confidence.value == "conservative" ==> s.conservative.Expand?))
              && (TestExclusion(row, s) == Ok(Some(ProjectionBoundary)) <==> EvidenceAllowed(row, s) && TooDistant(row, s))
  {}

  /** The query that names a profile and overrides nothing. */
  predicate Plain(query: Query, profile: Profile) {
    query.context == Present(EMPTY_CONTEXT.(profile := Present(profile)))
  }

  ghost predicate FilesWithin(files: seq<FileRow>, distance: nat) {
    forall f | f in files :: f.distance.Some? && f.distance.value <= distance
  }

  /** What the four profiles present when nothing is overridden. */
  lemma ProfileDefaults(query: Query, profile: Profile)
    requires Plain(query, profile) && SelectionOf(query).Ok?
    ensures var s := SelectionOf(query).value;
            && s.presentedFiles <= s.eligibleFiles <= s.canonicalFiles && s.presentedTests <= s.eligibleTests
            && match profile
               case Exact =>
                 FilesWithin(s.eligibleFiles, 0) && |s.presentedFiles| <= 12 && |s.presentedTests| <= 12
                 && forall t | t in s.eligibleTests :: RouteAxesAbsent(t) || t.confidence == Some("exact")
               case Change =>
                 FilesWithin(s.eligibleFiles, 1) && |s.presentedFiles| <= 24 && |s.presentedTests| <= 24
                 && forall t | t in s.eligibleTests :: RouteAxesAbsent(t) || t.confidence != Some("conservative")
               case Architecture =>
                 s.eligibleFiles == s.canonicalFiles && |s.presentedFiles| <= 64 && |s.presentedTests| <= 64
                 && forall t | t in s.eligibleTests :: RouteAxesAbsent(t) || t.confidence != Some("conservative")
               case Audit =>
                 s.presentedFiles == s.canonicalFiles && s.presentedTests == s.canonicalTests
  {
    var s, settings := SelectionOf(query).value, SettingsOf(query.context).value;
    EligibleTestsAdmitted(query, settings);
    hide Kept, EligibleFiles, TestExclusions, TestExclusion, Somes;
    EligibleIsLongest(s.canonicalFiles, settings.maxDistance);
    forall t | t in s.eligibleTests && !RouteAxesAbsent(t)
      ensures t.confidence.Some? && (profile == Exact ==> t.confidence == Some("exact"))
      ensures t.confidence == Some("conservative") ==> settings.conservative == Expand
    {
      TestsAdmittedExactly(t, settings);
    }
    hide RouteAxesAbsent;
    if profile == Audit { AuditPresentsAll(query); }
  }

  lemma AuditPresentsAll(query: Query)
    requires Plain(query, Audit) && SelectionOf(query).Ok?
    ensures var s := SelectionOf(query).value; s.presentedFiles == s.canonicalFiles && s.presentedTests == s.canonicalTests
  {
    var s, settings := SelectionOf(query).value, SettingsOf(query.context).value;
    hide Kept, EligibleFiles, TestExclusions, Somes;
    EligibleIsLongest(s.canonicalFiles, settings.maxDistance);
    forall i | 0 <= i < |s.canonicalTests|
      ensures s.exclusions[i].None?
    {
      TestsAdmittedExactly(s.canonicalTests[i], settings);
    }
    AllKept(s.canonicalTests, s.exclusions);
  }

  lemma EligibleTestsAdmitted(query: Query, settings: Settings)
    requires SettingsOf(query.context) == Ok(settings) && SelectionOf(query).Ok?
    ensures forall t | t in SelectionOf(query).value.eligibleTests :: TestExclusion(t, settings) == Ok(None)
  {
    var s := SelectionOf(query).value;
    hide Kept, EligibleFiles, TestExclusion, Somes, SettingsOf;
    KeptMembers(s.canonicalTests, s.exclusions);
    forall t | t in s.eligibleTests
      ensures TestExclusion(t, settings) == Ok(None)
    {
      assert exists i | 0 <= i < |s.canonicalTests| :: s.canonicalTests[i] == t && s.exclusions[i].None?;
    }
  }

  lemma {:induction false} AllKept(rows: seq<TestRow>, exclusions: seq<Option<Exclusion>>)
    requires |rows| == |exclusions| && forall i | 0 <= i < |rows| :: exclusions[i].None?
    ensures Kept(rows, exclusions) == rows
  {
    if rows != [] {
      AllKept(rows[1..], exclusions[1..]);
      assert rows == [rows[0]] + rows[1..];
    }
  }
}
