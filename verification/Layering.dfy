/** Validation of the coarse native targets against the real includes. */
module Layering {
  import opened Prelude
  import opened Ordering
  import opened CoreTargets
  import opened NativeIncludes

  /** The checked repository: its targets, its validated source list, its private headers (by include path), the
      directives of every native file, and the reviewed components with their allowed edges. */
  datatype Project = Project(targets: Targets, sources: seq<string>, headers: set<string>, files: seq<NativeFile>,
                             components: ComponentMap, allowed: set<(string, string)>)

  datatype LayerError = OutsideSource | NotExactlyOneGroup | Includes(error: InventoryError) | SplitComponent | Drift

  /** The group of every source and header, and the collapsed include edges between groups. */
  datatype Layers = Layers(groupOf: map<string, string>, edges: set<(string, string)>)

  // ----- one group per path

  function MatchingPrefixes(relative: string, name: string, prefixes: seq<string>): seq<string> {
    if prefixes == [] then []
    else (if StartsWith(relative, prefixes[0] + "/") then [name] else []) + MatchingPrefixes(relative, name, prefixes[1..])
  }

  /** One entry per group and prefix that covers the path. */
  function MatchingGroups(relative: string, groups: seq<Group>): seq<string> {
    if groups == [] then []
    else MatchingPrefixes(relative, groups[0].name, groups[0].prefixes) + MatchingGroups(relative, groups[1..])
  }

  function MatchingGroup(path: string, groups: seq<Group>): Result<string, LayerError> {
    if !StartsWith(path, "src/") then Err(OutsideSource)
    else
      var found := MatchingGroups(path[4..], groups);
      if |found| != 1 then Err(NotExactlyOneGroup) else Ok(found[0])
  }

  function CorePaths(p: Project): seq<string> {
    p.sources + HeaderPaths(p.headers)
  }

  function HeaderPaths(headers: set<string>): seq<string> {
    Sorted(set h | h in headers :: "src/" + h)
  }

  function GroupPaths(done: map<string, string>, paths: seq<string>, groups: seq<Group>): Result<map<string, string>, LayerError>
    decreases |paths|
  {
    if paths == [] then Ok(done) else
      var group :- MatchingGroup(paths[0], groups);
      GroupPaths(done[paths[0] := group], paths[1..], groups)
  }

  /** No reviewed component is split across groups; `owned` maps the components seen so far to their group. */
  function GroupComponents(owned: map<string, string>, paths: seq<string>, groupOf: map<string, string>,
                           components: ComponentMap, matches: Matches): Result<map<string, string>, LayerError>
    requires forall p | p in paths :: p in groupOf
    decreases |paths|
  {
    if paths == [] then Ok(owned) else
      var owner := RequireOwner(paths[0], components, matches);
      if owner.Err? then Err(Includes(owner.error))
      else if owner.value in owned && owned[owner.value] != groupOf[paths[0]] then Err(SplitComponent)
      else GroupComponents(owned[owner.value := groupOf[paths[0]]], paths[1..], groupOf, components, matches)
  }

  /** The include edges between different groups. */
  function CollapsedEdges(relations: seq<Relation>, groupOf: map<string, string>): set<(string, string)> {
    set r | r in relations && r.source in groupOf && r.target in groupOf && groupOf[r.source] != groupOf[r.target] ::
      (groupOf[r.source], groupOf[r.target])
  }

  function DeclaredEdges(groups: seq<Group>): set<(string, string)> {
    set g, d | g in groups && d in g.dependencies :: (g.name, d)
  }

  function Validated(p: Project, matches: Matches): Result<Layers, LayerError> {
    var relations := Inventory(p.files, p.headers, p.components, matches, p.allowed);
    if relations.Err? then Err(Includes(relations.error)) else
      var groupOf :- GroupPaths(map[], CorePaths(p), p.targets.groups);
      GroupPathsKeys(map[], CorePaths(p), p.targets.groups);
      var owned :- GroupComponents(map[], CorePaths(p), groupOf, p.components, matches);
      var edges := CollapsedEdges(relations.value, groupOf);
      if edges != DeclaredEdges(p.targets.groups) then Err(Drift) else Ok(Layers(groupOf, edges))
  }

  lemma {:induction false} GroupPathsKeys(done: map<string, string>, paths: seq<string>, groups: seq<Group>)
    ensures GroupPaths(done, paths, groups).Ok? ==>
              && (forall p :: p in GroupPaths(done, paths, groups).value <==> p in done || p in paths)
              && (forall p | p in paths :: MatchingGroup(p, groups) == Ok(GroupPaths(done, paths, groups).value[p]))
              && (forall p | p in done && p !in paths :: GroupPaths(done, paths, groups).value[p] == done[p])
    decreases |paths|
  {
    hide MatchingGroup;
    if paths != [] && MatchingGroup(paths[0], groups).Ok? {
      GroupPathsKeys(done[paths[0] := MatchingGroup(paths[0], groups).value], paths[1..], groups);
      assert paths == [paths[0]] + paths[1..];
    }
  }

  /** The loops of the validator. */
  method ValidateTargets(p: Project, matches: Matches) returns (r: Result<Layers, LayerError>)
    ensures r == Validated(p, matches)
  {
    var relations := ValidatePrivateIncludes(p.files, p.headers, p.components, matches, p.allowed);
    if relations.Err? {
      return Err(Includes(relations.error));
    }
    var paths, groups := CorePaths(p), p.targets.groups;
    var groupOf: map<string, string> := map[];
    assert paths[0..] == paths;
    for i := 0 to |paths|
      invariant GroupPaths(groupOf, paths[i..], groups) == GroupPaths(map[], paths, groups)
    {
      assert paths[i..][1..] == paths[i + 1..];
      var group := MatchingGroup(paths[i], groups);
      if group.Err? {
        return Err(group.error);
      }
      groupOf := groupOf[paths[i] := group.value];
    }
    GroupPathsKeys(map[], paths, groups);
    var owned: map<string, string> := map[];
    for i := 0 to |paths|
      invariant GroupComponents(owned, paths[i..], groupOf, p.components, matches)
                == GroupComponents(map[], paths, groupOf, p.components, matches)
    {
      assert paths[i..][1..] == paths[i + 1..];
      var owner := RequireOwner(paths[i], p.components, matches);
      if owner.Err? {
        return Err(Includes(owner.error));
      }
      if owner.value in owned && owned[owner.value] != groupOf[paths[i]] {
        return Err(SplitComponent);
      }
      owned := owned[owner.value := groupOf[paths[i]]];
    }
    var edges := CollapsedEdges(relations.value, groupOf);
    if edges != DeclaredEdges(groups) {
      return Err(Drift);
    }
    return Ok(Layers(groupOf, edges));
  }
}
