/** Reviewed component ownership and the inventory of private includes.

    `matches` stands for `fnmatch.fnmatchcase`. A directive is what the two include patterns extract from a line. */
module NativeIncludes {
  import opened Prelude
  import opened Ordering
  import opened PosixPath

  /** The path patterns of each reviewed component. */
  type ComponentMap = map<string, seq<string>>

  type Matches = (string, string) -> bool

  datatype Directive = NotLiteral | Literal(quoted: bool, header: string)

  datatype NativeFile = NativeFile(path: string, directives: seq<Directive>)

  datatype Relation = Relation(source: string, sourceComponent: string, target: string, targetComponent: string)

  datatype Failure = NotLiteralInclude | IncludeEscapes | NotCanonical | NeedsQuotes | ForbiddenEdge | NotModuleQualified
                   | NamesSource

  datatype InventoryError = NoHeaders | NoSingleOwner | Failures(failures: seq<Failure>)

  // ----- reviewed component edges

  /** A row of the reviewed edge list; a missing or non-string value reads as the empty string. */
  datatype EdgeRow = NotAnObject | EdgeRow(source: string, target: string, kind: string)

  datatype EdgeError = RowNotObject | RowIncomplete | UnknownComponent | RepeatedEdge

  function AllowedEdges(done: set<(string, string)>, rows: seq<EdgeRow>, names: set<string>)
    : Result<set<(string, string)>, EdgeError>
    decreases |rows|
  {
    if rows == [] then Ok(done)
    else if rows[0].NotAnObject? then Err(RowNotObject)
    else if rows[0].source == "" || rows[0].target == "" || rows[0].kind != "*" then Err(RowIncomplete)
    else if rows[0].source !in names || rows[0].target !in names then Err(UnknownComponent)
    else if (rows[0].source, rows[0].target) in done then Err(RepeatedEdge)
    else AllowedEdges(done + {(rows[0].source, rows[0].target)}, rows[1..], names)
  }

  /** The loop over the reviewed rows. */
  method LoadAllowedEdges(rows: seq<EdgeRow>, names: set<string>) returns (r: Result<set<(string, string)>, EdgeError>)
    ensures r == AllowedEdges({}, rows, names)
  {
    var edges: set<(string, string)> := {};
    assert rows[0..] == rows;
    for i := 0 to |rows|
      invariant AllowedEdges(edges, rows[i..], names) == AllowedEdges({}, rows, names)
    {
      assert rows[i..][1..] == rows[i + 1..];
      var row := rows[i];
      if row.NotAnObject? {
        return Err(RowNotObject);
      }
      if row.source == "" || row.target == "" || row.kind != "*" {
        return Err(RowIncomplete);
      }
      var unknown := {row.source, row.target} - names;
      assert row.source !in names ==> row.source in unknown;
      assert row.target !in names ==> row.target in unknown;
      if unknown != {} {
        return Err(UnknownComponent);
      }
      var edge := (row.source, row.target);
      if edge in edges {
        return Err(RepeatedEdge);
      }
      edges := edges + {edge};
    }
    return Ok(edges);
  }

  /** The distinct edges between different components. */
  function ComponentEdges(relations: seq<Relation>): set<(string, string)> {
    set r | r in relations && r.sourceComponent != r.targetComponent :: (r.sourceComponent, r.targetComponent)
  }

  // ----- owners

  predicate Owns(patterns: seq<string>, path: string, matches: Matches) {
    exists p | p in patterns :: matches(path, p)
  }

  function Owners(path: string, components: ComponentMap, matches: Matches): set<string> {
    set name | name in components && Owns(components[name], path, matches)
  }

  /** The one reviewed owner of a path, or a refusal when there is none or several. */
  function RequireOwner(path: string, components: ComponentMap, matches: Matches): (r: Result<string, InventoryError>)
    ensures r.Ok? <==> |Owners(path, components, matches)| == 1
    ensures r.Ok? ==> Owners(path, components, matches) == {r.value}
  {
    var owners := Sorted(Owners(path, components, matches));
    SortedSize(Owners(path, components, matches));
    if |owners| != 1 then Err(NoSingleOwner) else
      assert Elements([owners[0]]) == {owners[0]};
      assert owners == [owners[0]];
      Ok(owners[0])
  }

  /** The owner of each private header, by include path. */
  function HeaderOwners(headers: set<string>, components: ComponentMap, matches: Matches): map<string, string>
    requires forall h | h in headers :: RequireOwner("src/" + h, components, matches).Ok?
  {
    map h | h in headers :: RequireOwner("src/" + h, components, matches).value
  }

  // ----- one directive

  /** What one directive contributes: possibly a relation, and the failures it causes in order. */
  datatype Verdict = Verdict(relation: Option<Relation>, failures: seq<Failure>)

  function Judge(source: string, component: string, d: Directive, owners: map<string, string>,
                 allowed: set<(string, string)>): Verdict
  {
    if d.NotLiteral? then Verdict(None, [NotLiteralInclude])
    else if IsAbsolute(d.header) || ".." in Components(d.header) then Verdict(None, [IncludeEscapes])
    else if StartsWith(d.header, "./") || '\\' in d.header then Verdict(None, [NotCanonical])
    else if d.header in owners then
      var target := owners[d.header];
      Verdict(Some(Relation(source, component, "src/" + d.header, target)),
              (if d.quoted then [] else [NeedsQuotes])
              + if component == target || (component, target) in allowed then [] else [ForbiddenEdge])
    else if exists h | h in owners :: EndsWith("src/" + h, "/" + d.header) then Verdict(None, [NotModuleQualified])
    else if StartsWith(d.header, "src/") then Verdict(None, [NamesSource])
    else Verdict(None, [])
  }

  // ----- the whole inventory

  datatype Tally = Tally(relations: seq<Relation>, failures: seq<Failure>)

  function Add(t: Tally, v: Verdict): Tally {
    Tally(if v.relation.Some? then t.relations + [v.relation.value] else t.relations, t.failures + v.failures)
  }

  function JudgeAll(t: Tally, source: string, component: string, ds: seq<Directive>, owners: map<string, string>,
                    allowed: set<(string, string)>): Tally
    decreases |ds|
  {
    if ds == [] then t
    else JudgeAll(Add(t, Judge(source, component, ds[0], owners, allowed)), source, component, ds[1..], owners, allowed)
  }

  function ScanFiles(t: Tally, files: seq<NativeFile>, components: ComponentMap, matches: Matches,
                     owners: map<string, string>, allowed: set<(string, string)>): Result<Tally, InventoryError>
    decreases |files|
  {
    if files == [] then Ok(t) else
      var component :- RequireOwner(files[0].path, components, matches);
      ScanFiles(JudgeAll(t, files[0].path, component, files[0].directives, owners, allowed), files[1..], components,
                matches, owners, allowed)
  }

  function Inventory(files: seq<NativeFile>, headers: set<string>, components: ComponentMap, matches: Matches,
                     allowed: set<(string, string)>): Result<seq<Relation>, InventoryError>
  {
    if headers == {} then Err(NoHeaders)
    else if exists h | h in headers :: RequireOwner("src/" + h, components, matches).Err? then Err(NoSingleOwner)
    else
      var tally :- ScanFiles(Tally([], []), files, components, matches, HeaderOwners(headers, components, matches), allowed);
      if tally.failures != [] then Err(Failures(tally.failures)) else Ok(tally.relations)
  }

  /** The loops over files and their lines, collecting relations and failures. */
  method ValidatePrivateIncludes(files: seq<NativeFile>, headers: set<string>, components: ComponentMap, matches: Matches,
                                 allowed: set<(string, string)>) returns (r: Result<seq<Relation>, InventoryError>)
    ensures r == Inventory(files, headers, components, matches, allowed)
  {
    if headers == {} {
      return Err(NoHeaders);
    }
    if exists h | h in headers :: RequireOwner("src/" + h, components, matches).Err? {
      return Err(NoSingleOwner);
    }
    var owners := HeaderOwners(headers, components, matches);
    var tally := Tally([], []);
    ghost var whole := ScanFiles(tally, files, components, matches, owners, allowed);
    assert files[0..] == files;
    for i := 0 to |files|
      invariant ScanFiles(tally, files[i..], components, matches, owners, allowed) == whole
    {
      assert files[i..][1..] == files[i + 1..];
      var component := RequireOwner(files[i].path, components, matches);
      if component.Err? {
        return Err(component.error);
      }
      var ds := files[i].directives;
      ghost var before := tally;
      assert ds[0..] == ds;
      for j := 0 to |ds|
        invariant JudgeAll(tally, files[i].path, component.value, ds[j..], owners, allowed)
                  == JudgeAll(before, files[i].path, component.value, ds, owners, allowed)
      {
        assert ds[j..][1..] == ds[j + 1..];
        var verdict := Judge(files[i].path, component.value, ds[j], owners, allowed);
        if verdict.relation.Some? {
          tally := tally.(relations := tally.relations + [verdict.relation.value]);
        }
        tally := tally.(failures := tally.failures + verdict.failures);
      }
    }
    if tally.failures != [] {
      return Err(Failures(tally.failures));
    }
    return Ok(tally.relations);
  }
}
