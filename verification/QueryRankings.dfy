/** What a Query document presents: context profile, evidence policy, quotas and the rankings drawn from them. */
module QueryRankings {
  import opened Prelude
  import opened Dedup

  /** A key of a JSON object: missing, of a type or range the harness rejects, or usable. */
  datatype Field<+T> = Absent | Malformed | Present(value: T)

  datatype SymbolRef = SymbolRef(path: Field<string>, name: Option<string>)

  datatype FileRow = FileRow(path: string, distance: Option<nat>, symbols: seq<SymbolRef>)

  datatype TestRow = TestRow(path: string, selector: string, provenance: Option<string>, confidence: Option<string>,
                             evidenceScope: Option<string>, targetRole: Option<string>, target: Option<string>,
                             seedDistance: Option<int>)

  datatype Profile = Exact | Change | Architecture | Audit

  datatype Policy = Collapse | Expand | Exclude

  datatype Counts = Counts(files: Field<nat>, tests: Field<nat>)

  datatype Context = Context(profile: Field<Profile>, maxSeedDistance: Field<nat>, candidate: Field<Policy>,
                             conservative: Field<Policy>, quotas: Field<Counts>, offsets: Field<Counts>,
                             provenance: Option<seq<string>>, confidence: Option<seq<string>>)

  /** A `None` entry is a row that is not an object with the required string keys. */
  datatype Query = Query(files: seq<Option<FileRow>>, tests: seq<Option<TestRow>>, matchedSymbols: seq<SymbolRef>,
                         context: Field<Context>)

  datatype QueryError = InvalidContext | InvalidProfile | InvalidMaxDistance | InvalidPolicy | InvalidCounts
                      | InvalidFileDistance | InvalidCount | PartialRouteAxes

  datatype Exclusion = EvidencePolicy | ProjectionBoundary

  const EMPTY_CONTEXT := Context(Absent, Absent, Absent, Absent, Absent, Absent, None, None)
  const NO_COUNTS := Counts(Absent, Absent)

  /** The settings in force once profile defaults and explicit overrides are combined. */
  datatype Settings = Settings(profile: Profile, maxDistance: Option<nat>, candidate: Policy, conservative: Policy,
                               defaultQuota: Option<nat>, quotas: Counts, offsets: Counts,
                               provenance: Option<seq<string>>, confidence: Option<seq<string>>)

  datatype Selection = Selection(canonicalFiles: seq<FileRow>, canonicalTests: seq<TestRow>,
                                 eligibleFiles: seq<FileRow>, eligibleTests: seq<TestRow>,
                                 presentedFiles: seq<FileRow>, presentedTests: seq<TestRow>,
                                 exclusions: seq<Option<Exclusion>>)

  datatype Rankings = Rankings(files: seq<string>, contextFiles: seq<string>, seedFiles: seq<string>,
                               symbols: seq<string>, matchedSymbols: seq<string>, tests: seq<string>,
                               evidence: Evidence, selection: Selection)

  /** How many files, symbols and tests the document returned as canonical evidence. */
  datatype Evidence = Evidence(files: nat, symbols: nat, tests: nat)

  // ----- settings

  function MaxDistanceOf(profile: Profile): Option<nat> {
    match profile
    case Exact => Some(0)
    case Change => Some(1)
    case _ => None
  }

  function CandidateOf(profile: Profile): Policy {
    if profile.Exact? then Exclude else Expand
  }

  function ConservativeOf(profile: Profile): Policy {
    match profile
    case Exact => Exclude
    case Audit => Expand
    case _ => Collapse
  }

  function QuotaOf(profile: Profile): Option<nat> {
    match profile
    case Exact => Some(12)
    case Change => Some(24)
    case Architecture => Some(64)
    case Audit => None
  }

  function Or<T>(field: Field<T>, default: T): T {
    if field.Present? then field.value else default
  }

  function SettingsOf(context: Field<Context>): Result<Settings, QueryError> {
    if context.Malformed? then Err(InvalidContext) else
      var c := Or(context, EMPTY_CONTEXT);
      if c.profile.Malformed? then Err(InvalidProfile)
      else if c.maxSeedDistance.Malformed? then Err(InvalidMaxDistance)
      else if c.candidate.Malformed? || c.conservative.Malformed? then Err(InvalidPolicy)
      else if c.quotas.Malformed? || c.offsets.Malformed? then Err(InvalidCounts)
      else
        var p := Or(c.profile, Change);
        Ok(Settings(p,
                    if c.maxSeedDistance.Present? then Some(c.maxSeedDistance.value) else MaxDistanceOf(p),
                    Or(c.candidate, CandidateOf(p)), Or(c.conservative, ConservativeOf(p)), QuotaOf(p),
                    Or(c.quotas, NO_COUNTS), Or(c.offsets, NO_COUNTS), c.provenance, c.confidence))
  }

  function CountOr(field: Field<nat>, default: nat): Result<nat, QueryError> {
    if field.Malformed? then Err(InvalidCount) else Ok(Or(field, default))
  }

  // ----- rows

  function Somes<T>(rows: seq<Option<T>>): (r: seq<T>) {
    if rows == [] then [] else
      (if rows[0].Some? then [rows[0].value] else []) + Somes(rows[1..])
  }

  /** A Python slice `s[offset : offset + count]`, which clips at the end. */
  function Slice<T>(s: seq<T>, offset: nat, count: nat): seq<T> {
    if |s| <= offset then [] else if |s| - offset <= count then s[offset..] else s[offset..offset + count]
  }

  predicate WithinDistance(distance: nat, limit: Option<nat>) {
    limit.Some? ==> distance <= limit.value
  }

  /** The leading rows within `limit`; a row past the first too distant one is never looked at. */
  function EligibleFiles(rows: seq<FileRow>, limit: Option<nat>): Result<seq<FileRow>, QueryError> {
    if rows == [] then Ok([])
    else if rows[0].distance.None? then Err(InvalidFileDistance)
    else if !WithinDistance(rows[0].distance.value, limit) then Ok([])
    else
      var rest :- EligibleFiles(rows[1..], limit);
      Ok([rows[0]] + rest)
  }

  predicate RouteAxesAbsent(row: TestRow) {
    row.provenance.None? && row.confidence.None? && row.evidenceScope.None? && row.targetRole.None? && row.target.None?
  }

  predicate RouteAxesComplete(row: TestRow) {
    row.provenance.Some? && row.confidence.Some? && row.evidenceScope.Some? && row.targetRole.Some? && row.target.Some?
  }

  function TestExclusion(row: TestRow, s: Settings): Result<Option<Exclusion>, QueryError> {
    if RouteAxesAbsent(row) then Ok(None)
    else if !RouteAxesComplete(row) then Err(PartialRouteAxes)
    else
      var confidence := row.confidence.value;
      if s.provenance.Some? && row.provenance.value !in s.provenance.value then Ok(Some(EvidencePolicy))
      else if s.confidence.Some? && confidence !in s.confidence.value then Ok(Some(EvidencePolicy))
      else if s.confidence.None? && s.profile.Exact? && confidence != "exact" then Ok(Some(EvidencePolicy))
      else if row.seedDistance.Some? && s.maxDistance.Some? && row.seedDistance.value > s.maxDistance.value then
        Ok(Some(ProjectionBoundary))
      else if confidence == "candidate" && !s.candidate.Expand? then Ok(Some(EvidencePolicy))
      else if confidence == "conservative" && !s.conservative.Expand? then Ok(Some(EvidencePolicy))
      else Ok(None)
  }

  function TestExclusions(rows: seq<TestRow>, s: Settings): (r: Result<seq<Option<Exclusion>>, QueryError>)
    ensures r.Ok? ==> |r.value| == |rows|
    ensures r.Ok? ==> forall i | 0 <= i < |rows| :: TestExclusion(rows[i], s) == Ok(r.value[i])
    ensures r.Ok? <==> forall row | row in rows :: TestExclusion(row, s).Ok?
  {
    if rows == [] then Ok([]) else
      var first :- TestExclusion(rows[0], s);
      assert forall row | row in rows[1..] :: row in rows;
      var rest :- TestExclusions(rows[1..], s);
      Ok([first] + rest)
  }

  function Kept<T>(rows: seq<T>, exclusions: seq<Option<Exclusion>>): (r: seq<T>)
    requires |rows| == |exclusions|
  {
    if rows == [] then []
    else if exclusions[0].None? then [rows[0]] + Kept(rows[1..], exclusions[1..])
    else Kept(rows[1..], exclusions[1..])
  }

  // ----- identities

  function SymbolIdentity(symbol: SymbolRef, inherited: Option<string>): Option<string> {
    if symbol.name.None? then None
    else
      match symbol.path
      case Present(p) => Some(p + ":" + symbol.name.value)
      case Malformed => None
      case Absent => if inherited.None? then None else Some(inherited.value + ":" + symbol.name.value)
  }

  function TestIdentity(row: TestRow): string {
    row.path + "::" + row.selector
  }

  function FilePaths(rows: seq<FileRow>): (r: seq<string>)
    ensures |r| == |rows| && forall i | 0 <= i < |rows| :: r[i] == rows[i].path
  {
    seq(|rows|, i requires 0 <= i < |rows| => rows[i].path)
  }

  function TestPaths(rows: seq<TestRow>): (r: seq<string>)
    ensures |r| == |rows| && forall i | 0 <= i < |rows| :: r[i] == rows[i].path
  {
    seq(|rows|, i requires 0 <= i < |rows| => rows[i].path)
  }

  function TestIdentities(rows: seq<TestRow>): (r: seq<string>)
    ensures |r| == |rows| && forall i | 0 <= i < |rows| :: r[i] == TestIdentity(rows[i])
  {
    seq(|rows|, i requires 0 <= i < |rows| => TestIdentity(rows[i]))
  }

  /** Paths of the matched symbols that carry a string path. */
  function MatchedFiles(symbols: seq<SymbolRef>): seq<string> {
    if symbols == [] then [] else
      (if symbols[0].path.Present? then [symbols[0].path.value] else []) + MatchedFiles(symbols[1..])
  }

  function SymbolIds(symbols: seq<SymbolRef>, inherited: Option<string>): seq<string> {
    if symbols == [] then [] else
      var id := SymbolIdentity(symbols[0], inherited);
      (if id.Some? then [id.value] else []) + SymbolIds(symbols[1..], inherited)
  }

  function SymbolsOfFiles(rows: seq<FileRow>): seq<string> {
    if rows == [] then [] else SymbolIds(rows[0].symbols, Some(rows[0].path)) + SymbolsOfFiles(rows[1..])
  }

  function SeedPaths(rows: seq<FileRow>): seq<string> {
    if rows == [] then [] else (if rows[0].distance == Some(0) then [rows[0].path] else []) + SeedPaths(rows[1..])
  }

  // ----- the whole extraction

  function Select(files: seq<FileRow>, tests: seq<TestRow>, s: Settings): (r: Result<Selection, QueryError>)
    ensures r.Ok? ==> |r.value.exclusions| == |r.value.canonicalTests|
  {
    var eligibleFiles :- EligibleFiles(files, s.maxDistance);
    var fileOffset :- CountOr(s.offsets.files, 0);
    var fileQuota :- CountOr(s.quotas.files, if s.defaultQuota.None? then |eligibleFiles| else s.defaultQuota.value);
    var exclusions :- TestExclusions(tests, s);
    var eligibleTests := Kept(tests, exclusions);
    var testOffset :- CountOr(s.offsets.tests, 0);
    var testQuota :- CountOr(s.quotas.tests, if s.defaultQuota.None? then |eligibleTests| else s.defaultQuota.value);
    Ok(Selection(files, tests, eligibleFiles, eligibleTests,
                 Slice(eligibleFiles, fileOffset, fileQuota), Slice(eligibleTests, testOffset, testQuota), exclusions))
  }

  function SelectionOf(query: Query): (r: Result<Selection, QueryError>)
    ensures r.Ok? ==> |r.value.exclusions| == |r.value.canonicalTests|
  {
    var s :- SettingsOf(query.context);
    Select(Somes(query.files), Somes(query.tests), s)
  }

  function RankingsOf(query: Query, selection: Selection): Rankings {
    var files := FilePaths(selection.presentedFiles);
    Rankings(Distinct(files),
             Distinct(files + MatchedFiles(query.matchedSymbols) + TestPaths(selection.presentedTests)),
             Distinct(SeedPaths(selection.canonicalFiles)),
             Distinct(SymbolsOfFiles(selection.presentedFiles)),
             Distinct(SymbolIds(query.matchedSymbols, None)),
             Distinct(TestIdentities(selection.presentedTests)),
             Evidence(|selection.canonicalFiles|, |SymbolsOfFiles(selection.canonicalFiles)|, |selection.canonicalTests|),
             selection)
  }

  // ----- the program's loops

  /** Walks the rows in order and stops at the first one beyond the distance limit. */
  method SelectFileRows(rows: seq<FileRow>, limit: Option<nat>) returns (r: Result<seq<FileRow>, QueryError>)
    ensures r == EligibleFiles(rows, limit)
  {
    var eligible := [];
    ghost var whole := EligibleFiles(rows, limit);
    assert rows[0..] == rows;
    for i := 0 to |rows|
      invariant whole.Err? <==> EligibleFiles(rows[i..], limit).Err?
      invariant whole.Err? ==> whole == EligibleFiles(rows[i..], limit)
      invariant whole.Ok? ==> whole.value == eligible + EligibleFiles(rows[i..], limit).value
    {
      assert rows[i..][1..] == rows[i + 1..];
      if rows[i].distance.None? {
        return Err(InvalidFileDistance);
      }
      if !WithinDistance(rows[i].distance.value, limit) {
        assert eligible + [] == eligible;
        return Ok(eligible);
      }
      eligible := eligible + [rows[i]];
    }
    assert EligibleFiles(rows[|rows|..], limit) == Ok([]);
    assert eligible + [] == eligible;
    return Ok(eligible);
  }

  /** Collects the symbol identities of the presented rows, in row order. */
  method CollectSymbols(rows: seq<FileRow>) returns (symbols: seq<string>)
    ensures symbols == SymbolsOfFiles(rows)
  {
    symbols := [];
    for i := 0 to |rows|
      invariant symbols + SymbolsOfFiles(rows[i..]) == SymbolsOfFiles(rows)
    {
      ghost var before, rest := symbols, SymbolsOfFiles(rows[i + 1..]);
      var own := rows[i].symbols;
      for j := 0 to |own|
        invariant symbols + SymbolIds(own[j..], Some(rows[i].path)) == before + SymbolIds(own, Some(rows[i].path))
      {
        assert own[j..][1..] == own[j + 1..];
        var identity := SymbolIdentity(own[j], Some(rows[i].path));
        if identity.Some? {
          symbols := symbols + [identity.value];
        }
      }
      assert rows[i..][1..] == rows[i + 1..];
      assert symbols == before + SymbolIds(own, Some(rows[i].path));
      assert symbols + rest == before + (SymbolIds(own, Some(rows[i].path)) + rest);
    }
  }

  /** Counts the symbols of the canonical rows that have an identity. */
  method CountSymbols(rows: seq<FileRow>) returns (count: nat)
    ensures count == |SymbolsOfFiles(rows)|
  {
    count := 0;
    for i := 0 to |rows|
      invariant count + |SymbolsOfFiles(rows[i..])| == |SymbolsOfFiles(rows)|
    {
      assert rows[i..][1..] == rows[i + 1..];
      count := count + |SymbolIds(rows[i].symbols, Some(rows[i].path))|;
    }
  }

  /** Collects the paths and the identities of the presented tests. */
  method CollectTests(rows: seq<TestRow>) returns (paths: seq<string>, identities: seq<string>)
    ensures paths == TestPaths(rows) && identities == TestIdentities(rows)
  {
    paths, identities := [], [];
    for i := 0 to |rows|
      invariant paths == TestPaths(rows[..i]) && identities == TestIdentities(rows[..i])
    {
      assert rows[..i + 1] == rows[..i] + [rows[i]];
      paths := paths + [rows[i].path];
      identities := identities + [TestIdentity(rows[i])];
    }
    assert rows[..|rows|] == rows;
  }

  method ExtractRankings(query: Query) returns (r: Result<Rankings, QueryError>)
    ensures SelectionOf(query).Ok? ==> r == Ok(RankingsOf(query, SelectionOf(query).value))
    ensures SelectionOf(query).Err? ==> r == Err(SelectionOf(query).error)
  {
    var canonicalFiles, canonicalTests := Somes(query.files), Somes(query.tests);
    var settings := SettingsOf(query.context);
    if settings.Err? { return Err(settings.error); }
    var s := settings.value;
    var eligible := SelectFileRows(canonicalFiles, s.maxDistance);
    if eligible.Err? { return Err(eligible.error); }
    var fileOffset := CountOr(s.offsets.files, 0);
    if fileOffset.Err? { return Err(fileOffset.error); }
    var fileQuota := CountOr(s.quotas.files, if s.defaultQuota.None? then |eligible.value| else s.defaultQuota.value);
    if fileQuota.Err? { return Err(fileQuota.error); }
    var presentedFiles := Slice(eligible.value, fileOffset.value, fileQuota.value);
    var exclusions := TestExclusions(canonicalTests, s);
    if exclusions.Err? { return Err(exclusions.error); }
    var eligibleTests := Kept(canonicalTests, exclusions.value);
    var testOffset := CountOr(s.offsets.tests, 0);
    if testOffset.Err? { return Err(testOffset.error); }
    var testQuota := CountOr(s.quotas.tests, if s.defaultQuota.None? then |eligibleTests| else s.defaultQuota.value);
    if testQuota.Err? { return Err(testQuota.error); }
    var presentedTests := Slice(eligibleTests, testOffset.value, testQuota.value);

    var canonicalSymbols := CountSymbols(canonicalFiles);
    var symbols := CollectSymbols(presentedFiles);
    var testFiles, tests := CollectTests(presentedTests);
    var files := FilePaths(presentedFiles);
    var contextFiles := Deduplicate(files + MatchedFiles(query.matchedSymbols) + testFiles);
    files := Deduplicate(files);
    var seedFiles := Deduplicate(SeedPaths(canonicalFiles));
    symbols := Deduplicate(symbols);
    var matchedSymbols := Deduplicate(SymbolIds(query.matchedSymbols, None));
    tests := Deduplicate(tests);
    return Ok(Rankings(files, contextFiles, seedFiles, symbols, matchedSymbols, tests,
                       Evidence(|canonicalFiles|, canonicalSymbols, |canonicalTests|),
                       Selection(canonicalFiles, canonicalTests, eligible.value, eligibleTests,
                                 presentedFiles, presentedTests, exclusions.value)));
  }

  // ----- what the selection keeps

  /** The eligible files are the longest leading stretch within the distance limit. */
  lemma {:induction false} EligibleIsLongest(rows: seq<FileRow>, limit: Option<nat>)
    requires EligibleFiles(rows, limit).Ok?
    ensures var r := EligibleFiles(rows, limit).value;
            && r <= rows
            && (forall f | f in r :: f.distance.Some? && WithinDistance(f.distance.value, limit))
            && (|r| < |rows| ==> rows[|r|].distance.Some? && !WithinDistance(rows[|r|].distance.value, limit))
  {
    if rows != [] && WithinDistance(rows[0].distance.value, limit) {
      EligibleIsLongest(rows[1..], limit);
      assert rows == [rows[0]] + rows[1..];
    }
  }

  lemma {:induction false} KeptMembers<T>(rows: seq<T>, exclusions: seq<Option<Exclusion>>)
    requires |rows| == |exclusions|
    ensures forall x :: x in Kept(rows, exclusions) <==> exists i | 0 <= i < |rows| :: rows[i] == x && exclusions[i].None?
  {
    if rows != [] {
      var tail, rest := rows[1..], exclusions[1..];
      KeptMembers(tail, rest);
      forall x
        ensures x in Kept(rows, exclusions) <==> exists i | 0 <= i < |rows| :: rows[i] == x && exclusions[i].None?
      {
        if x in Kept(tail, rest) {
          var j :| 0 <= j < |tail| && tail[j] == x && rest[j].None?;
          assert rows[j + 1] == x && exclusions[j + 1].None?;
        }
        if i :| 0 <= i < |rows| && rows[i] == x && exclusions[i].None? {
          if i > 0 { assert tail[i - 1] == x && rest[i - 1].None?; }
        }
      }
    }
  }
}
