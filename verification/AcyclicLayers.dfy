/** Accepted targets are layers: along includes the group order never rises, so no include cycle leaves its group. */
module AcyclicLayers {
  import opened Prelude
  import opened Ordering
  import opened CoreTargets
  import opened TargetDeclarations
  import opened NativeIncludes
  import opened Layering
  import opened IncludeGraph

  // ----- one group per path

  /** Prefix `j` of group `i` covers the path. */
  ghost predicate Covers(groups: seq<Group>, i: int, j: int, relative: string) {
    0 <= i < |groups| && 0 <= j < |groups[i].prefixes| && StartsWith(relative, groups[i].prefixes[j] + "/")
  }

  ghost predicate OnlyCover(groups: seq<Group>, i: int, j: int, relative: string) {
    Covers(groups, i, j, relative) && forall k, l | Covers(groups, k, l, relative) :: k == i && l == j
  }

  ghost predicate PrefixCovers(prefixes: seq<string>, j: int, relative: string) {
    0 <= j < |prefixes| && StartsWith(relative, prefixes[j] + "/")
  }

  ghost predicate OnlyPrefix(prefixes: seq<string>, j: int, relative: string) {
    PrefixCovers(prefixes, j, relative) && forall l | PrefixCovers(prefixes, l, relative) :: l == j
  }

  lemma {:induction false} CountPrefixes(relative: string, name: string, prefixes: seq<string>)
    ensures var found := MatchingPrefixes(relative, name, prefixes);
            && (found == [] <==> forall j :: !PrefixCovers(prefixes, j, relative))
            && (|found| == 1 <==> exists j :: OnlyPrefix(prefixes, j, relative))
            && forall x | x in found :: x == name
  {
    if prefixes != [] {
      var rest := prefixes[1..];
      CountPrefixes(relative, name, rest);
      var found, later := MatchingPrefixes(relative, name, prefixes), MatchingPrefixes(relative, name, rest);
      forall j ensures PrefixCovers(rest, j, relative) <==> j != -1 && PrefixCovers(prefixes, j + 1, relative) {}
      assert forall j {:trigger PrefixCovers(prefixes, j, relative)} ::
          PrefixCovers(prefixes, j, relative) <==> (j == 0 && PrefixCovers(prefixes, 0, relative)) || PrefixCovers(rest, j - 1, relative);
      if PrefixCovers(prefixes, 0, relative) {
        assert found == [name] + later;
        if later == [] { assert OnlyPrefix(prefixes, 0, relative); }
      } else {
        assert found == later;
        if |later| == 1 {
          var j :| OnlyPrefix(rest, j, relative);
          assert OnlyPrefix(prefixes, j + 1, relative);
        }
        if j :| OnlyPrefix(prefixes, j, relative) { assert OnlyPrefix(rest, j - 1, relative); }
      }
    }
  }

  /** The matches found are one per covering group and prefix, so there is one match exactly when one prefix covers. */
  lemma {:induction false} CountMatches(relative: string, groups: seq<Group>)
    ensures var found := MatchingGroups(relative, groups);
            && (found == [] <==> forall i, j :: !Covers(groups, i, j, relative))
            && (|found| == 1 <==> exists i, j :: OnlyCover(groups, i, j, relative))
            && (|found| == 1 ==> exists i, j :: Covers(groups, i, j, relative) && found == [groups[i].name])
  {
    if groups != [] {
      var first, rest := groups[0], groups[1..];
      CountPrefixes(relative, first.name, first.prefixes);
      CountMatches(relative, rest);
      CoversTail(groups, relative);
      hide MatchingPrefixes;
      var here, later := MatchingPrefixes(relative, first.name, first.prefixes), MatchingGroups(relative, rest);
      assert MatchingGroups(relative, groups) == here + later;
      if here == [] {
        assert here + later == later;
        if |later| == 1 {
          var i, j :| OnlyCover(rest, i, j, relative);
          assert OnlyCover(groups, i + 1, j, relative);
          var k, l :| Covers(rest, k, l, relative) && later == [rest[k].name];
          assert Covers(groups, k + 1, l, relative);
        }
        if i, j :| OnlyCover(groups, i, j, relative) { assert OnlyCover(rest, i - 1, j, relative); }
      } else {
        if |here + later| == 1 {
          assert later == [] && here + later == here;
          var j :| OnlyPrefix(first.prefixes, j, relative);
          assert OnlyCover(groups, 0, j, relative);
          assert here[0] in here;
        }
        if i, j :| OnlyCover(groups, i, j, relative) {
          var l :| PrefixCovers(first.prefixes, l, relative);
          assert Covers(groups, 0, l, relative);
          assert OnlyPrefix(first.prefixes, j, relative);
        }
      }
    }
  }

  lemma CoversTail(groups: seq<Group>, relative: string)
    requires groups != []
    ensures forall j {:trigger Covers(groups, 0, j, relative)} {:trigger PrefixCovers(groups[0].prefixes, j, relative)} ::
              Covers(groups, 0, j, relative) <==> PrefixCovers(groups[0].prefixes, j, relative)
    ensures forall i, j {:trigger Covers(groups, i, j, relative)} :: i != 0 ==>
              (Covers(groups, i, j, relative) <==> Covers(groups[1..], i - 1, j, relative))
    ensures forall i, j {:trigger Covers(groups[1..], i, j, relative)} ::
              Covers(groups[1..], i, j, relative) <==> i != -1 && Covers(groups, i + 1, j, relative)
  {}

  /** A path has a group exactly when it lies under `src/` and one prefix of one group covers it. */
  lemma GroupOfPath(path: string, groups: seq<Group>)
    ensures MatchingGroup(path, groups).Ok? <==>
              StartsWith(path, "src/") && exists i, j :: OnlyCover(groups, i, j, path[4..])
    ensures MatchingGroup(path, groups).Ok? ==>
              exists i, j :: OnlyCover(groups, i, j, path[4..]) && MatchingGroup(path, groups) == Ok(groups[i].name)
  {
    if StartsWith(path, "src/") {
      CountMatches(path[4..], groups);
      if MatchingGroup(path, groups).Ok? {
        var i, j :| OnlyCover(groups, i, j, path[4..]);
        var k, l :| Covers(groups, k, l, path[4..]) && MatchingGroups(path[4..], groups) == [groups[k].name];
      }
    }
  }

  // ----- components are not split

  lemma {:induction false} ComponentsWhole(owned: map<string, string>, paths: seq<string>, groupOf: map<string, string>,
                                           components: ComponentMap, matches: Matches)
    requires forall p | p in paths :: p in groupOf
    ensures var end := GroupComponents(owned, paths, groupOf, components, matches);
            end.Ok? ==>
              && (forall c | c in owned :: c in end.value && end.value[c] == owned[c])
              && (forall p | p in paths ::
                    var owner := RequireOwner(p, components, matches);
                    owner.Ok? && owner.value in end.value && end.value[owner.value] == groupOf[p])
    decreases |paths|
  {
    hide RequireOwner;
    if paths != [] {
      var owner := RequireOwner(paths[0], components, matches);
      if owner.Ok? && GroupComponents(owned, paths, groupOf, components, matches).Ok? {
        ComponentsWhole(owned[owner.value := groupOf[paths[0]]], paths[1..], groupOf, components, matches);
        assert paths == [paths[0]] + paths[1..];
      }
    }
  }

  // ----- ranks

  /** The position of a group in the declared order. */
  ghost function Rank(groups: seq<Group>, name: string): nat {
    if groups == [] || groups[0].name == name then 0 else 1 + Rank(groups[1..], name)
  }

  lemma {:induction false} RankIsPosition(groups: seq<Group>, i: nat)
    requires i < |groups| && forall j, k | 0 <= j < k < |groups| :: groups[j].name != groups[k].name
    ensures Rank(groups, groups[i].name) == i
  {
    if i > 0 { RankIsPosition(groups[1..], i - 1); }
  }

  /** A declared dependency ranks strictly lower. */
  lemma DependencyRanksLower(groups: seq<Group>, source: string, target: string)
    requires Layered(groups) && exists g :: g in groups && g.name == source && target in g.dependencies
    ensures Rank(groups, target) < Rank(groups, source)
  {
    var g :| g in groups && g.name == source && target in g.dependencies;
    var d, i :| d == target && 0 <= i < |groups| && groups[i] == g;
    assert d in Names(groups[..i]);
    var j :| 0 <= j < |groups[..i]| && Names(groups[..i])[j] == d;
    assert groups[j].name == d;
    RankIsPosition(groups, i);
    RankIsPosition(groups, j);
  }

  // ----- accepted projects

  ghost function GroupOf(p: Project, matches: Matches): map<string, string>
    requires Validated(p, matches).Ok?
  {
    Validated(p, matches).value.groupOf
  }

  ghost function Graph(p: Project): set<Edge> {
    IncludeEdges(p.files, p.headers)
  }

  /** What validation establishes, in one place. */
  lemma AcceptedFacts(p: Project, matches: Matches)
    requires Validated(p, matches).Ok?
    ensures var relations := Inventory(p.files, p.headers, p.components, matches, p.allowed);
            && relations.Ok?
            && Validated(p, matches).value.edges == CollapsedEdges(relations.value, GroupOf(p, matches))
            && Validated(p, matches).value.edges == DeclaredEdges(p.targets.groups)
            && GroupPaths(map[], CorePaths(p), p.targets.groups) == Ok(GroupOf(p, matches))
            && (forall path | path in CorePaths(p) :: path in GroupOf(p, matches))
            && GroupComponents(map[], CorePaths(p), GroupOf(p, matches), p.components, matches).Ok?
  {
    GroupPathsKeys(map[], CorePaths(p), p.targets.groups);
    hide Inventory, GroupPaths, GroupComponents, CollapsedEdges, DeclaredEdges, CorePaths;
  }

  lemma CorePathsAreCore(p: Project)
    ensures forall path :: path in CorePaths(p) <==> path in p.sources || exists h | h in p.headers :: path == "src/" + h
    ensures Elements(CorePaths(p)) == Elements(p.sources) + set h | h in p.headers :: "src/" + h
  {
    var all := set h | h in p.headers :: "src/" + h;
    var listed := Sorted(all);
    assert CorePaths(p) == p.sources + listed;
    forall path
      ensures path in CorePaths(p) <==> path in p.sources || path in all
    {
      assert path in listed <==> path in Elements(listed);
    }
  }

  /** Every source and header belongs to exactly one prefix of one group; files of one reviewed component share a group. */
  lemma CoreIsPartitioned(p: Project, matches: Matches)
    requires Validated(p, matches).Ok?
    ensures GroupOf(p, matches).Keys == Elements(p.sources) + set h | h in p.headers :: "src/" + h
    ensures forall path | path in GroupOf(p, matches) ::
              && StartsWith(path, "src/")
              && exists i, j :: OnlyCover(p.targets.groups, i, j, path[4..]) && GroupOf(p, matches)[path] == p.targets.groups[i].name
    ensures forall a, b | a in GroupOf(p, matches) && b in GroupOf(p, matches)
                          && Owners(a, p.components, matches) == Owners(b, p.components, matches) ::
              GroupOf(p, matches)[a] == GroupOf(p, matches)[b]
  {
    AcceptedFacts(p, matches);
    CorePathsAreCore(p);
    var paths, groups, groupOf := CorePaths(p), p.targets.groups, GroupOf(p, matches);
    hide Validated, Inventory, CorePaths;
    GroupPathsKeys(map[], paths, groups);
    ComponentsWhole(map[], paths, groupOf, p.components, matches);
    hide GroupComponents, GroupPaths, Owners;
    forall path | path in paths
      ensures StartsWith(path, "src/")
      ensures exists i, j :: OnlyCover(groups, i, j, path[4..]) && groupOf[path] == groups[i].name
    {
      GroupOfPath(path, groups);
    }
    forall a, b | a in paths && b in paths && Owners(a, p.components, matches) == Owners(b, p.components, matches)
      ensures groupOf[a] == groupOf[b]
    {
      assert RequireOwner(a, p.components, matches).value in {RequireOwner(b, p.components, matches).value};
    }
  }

  // ----- exactly what is accepted

  /** The edges of the include graph between different groups. */
  ghost function Quotient(graph: set<Edge>, groupOf: map<string, string>): set<Edge> {
    set e | e in graph && e.0 in groupOf && e.1 in groupOf && groupOf[e.0] != groupOf[e.1] :: (groupOf[e.0], groupOf[e.1])
  }

  ghost predicate IsGrouping(groupOf: map<string, string>, paths: seq<string>, groups: seq<Group>) {
    && groupOf.Keys == Elements(paths)
    && forall path | path in paths :: MatchingGroup(path, groups) == Ok(groupOf[path])
  }

  /** Every path has one reviewed owner, and paths with the same owner are in the same group. */
  ghost predicate ComponentsUnsplit(groupOf: map<string, string>, paths: seq<string>, components: ComponentMap, matches: Matches)
    requires forall p | p in paths :: p in groupOf
  {
    && (forall a | a in paths :: |Owners(a, components, matches)| == 1)
    && forall a, b | a in paths && b in paths && Owners(a, components, matches) == Owners(b, components, matches) ::
         groupOf[a] == groupOf[b]
  }

  lemma {:induction false} GroupPathsComplete(done: map<string, string>, paths: seq<string>, groups: seq<Group>)
    requires forall path | path in paths :: MatchingGroup(path, groups).Ok?
    ensures GroupPaths(done, paths, groups).Ok?
    decreases |paths|
  {
    hide MatchingGroup;
    if paths != [] {
      GroupPathsComplete(done[paths[0] := MatchingGroup(paths[0], groups).value], paths[1..], groups);
    }
  }

  lemma {:induction false} ComponentsComplete(before: seq<string>, owned: map<string, string>, paths: seq<string>,
                                              groupOf: map<string, string>, components: ComponentMap, matches: Matches)
    requires forall p | p in before + paths :: p in groupOf
    requires ComponentsUnsplit(groupOf, before + paths, components, matches)
    requires forall c | c in owned :: exists a | a in before :: Owners(a, components, matches) == {c} && groupOf[a] == owned[c]
    ensures GroupComponents(owned, paths, groupOf, components, matches).Ok?
    decreases |paths|
  {
    hide Owners;
    if paths != [] {
      var path := paths[0];
      assert before + paths == (before + [path]) + paths[1..];
      var c := RequireOwner(path, components, matches).value;
      assert path in before + paths;
      if c in owned {
        var a :| a in before && Owners(a, components, matches) == {c} && groupOf[a] == owned[c];
        assert a in before + paths;
      }
      ComponentsComplete(before + [path], owned[c := groupOf[path]], paths[1..], groupOf, components, matches);
    }
  }

  lemma CollapsedIsQuotient(relations: seq<Relation>, groupOf: map<string, string>)
    ensures CollapsedEdges(relations, groupOf) == Quotient(EdgesOf(relations), groupOf)
  {
    forall e ensures e in CollapsedEdges(relations, groupOf) <==> e in Quotient(EdgesOf(relations), groupOf) {
      if e in CollapsedEdges(relations, groupOf) {
        var r :| r in relations && r.source in groupOf && r.target in groupOf && groupOf[r.source] != groupOf[r.target]
                 && e == (groupOf[r.source], groupOf[r.target]);
        assert (r.source, r.target) in EdgesOf(relations);
      }
    }
  }

  /** One group per core path, no component split, and the include graph's quotient is the declared relation. */
  ghost predicate IsLayering(p: Project, matches: Matches, layers: Layers) {
    && IsGrouping(layers.groupOf, CorePaths(p), p.targets.groups)
    && ComponentsUnsplit(layers.groupOf, CorePaths(p), p.components, matches)
    && Quotient(Graph(p), layers.groupOf) == layers.edges == DeclaredEdges(p.targets.groups)
  }

  lemma AcceptedIsLayering(p: Project, matches: Matches)
    requires Validated(p, matches).Ok?
    ensures IsLayering(p, matches, Validated(p, matches).value)
  {
    AcceptedFacts(p, matches);
    hide Validated;
    InventoryExact(p.files, p.headers, p.components, matches, p.allowed);
    hide *;
    LayersOf(p, matches, Validated(p, matches).value, Inventory(p.files, p.headers, p.components, matches, p.allowed).value);
  }

  lemma LayersOf(p: Project, matches: Matches, layers: Layers, relations: seq<Relation>)
    requires GroupPaths(map[], CorePaths(p), p.targets.groups) == Ok(layers.groupOf)
    requires forall path | path in CorePaths(p) :: path in layers.groupOf
    requires GroupComponents(map[], CorePaths(p), layers.groupOf, p.components, matches).Ok?
    requires EdgesOf(relations) == Graph(p)
    requires layers.edges == CollapsedEdges(relations, layers.groupOf) == DeclaredEdges(p.targets.groups)
    ensures IsLayering(p, matches, layers)
  {
    var paths := CorePaths(p);
    CollapsedIsQuotient(relations, layers.groupOf);
    hide Graph, CollapsedEdges, Quotient, MatchingGroup, CorePaths, EdgesOf, DeclaredEdges, Owners;
    GroupPathsKeys(map[], paths, p.targets.groups);
    ComponentsWhole(map[], paths, layers.groupOf, p.components, matches);
    hide GroupComponents, GroupPaths;
    forall a, b | a in paths && b in paths && Owners(a, p.components, matches) == Owners(b, p.components, matches)
      ensures layers.groupOf[a] == layers.groupOf[b]
    {
      assert RequireOwner(a, p.components, matches).value in {RequireOwner(b, p.components, matches).value};
    }
  }

  lemma LayeringIsAccepted(p: Project, matches: Matches, layers: Layers)
    requires Inventory(p.files, p.headers, p.components, matches, p.allowed).Ok? && IsLayering(p, matches, layers)
    ensures Validated(p, matches) == Ok(layers)
  {
    var paths, groups := CorePaths(p), p.targets.groups;
    InventoryExact(p.files, p.headers, p.components, matches, p.allowed);
    GroupingIsFound(layers.groupOf, paths, groups);
    hide CleanFiles, HeaderOwners, IncludeEdges, Inventory, CorePaths, IsGrouping, GroupPaths, AllJustified, AllOwned;
    CollapsedIsQuotient(Inventory(p.files, p.headers, p.components, matches, p.allowed).value, layers.groupOf);
    assert [] + paths == paths;
    ComponentsComplete([], map[], paths, layers.groupOf, p.components, matches);
    hide GroupComponents, CollapsedEdges, Quotient, ComponentsUnsplit;
  }

  lemma GroupingIsFound(groupOf: map<string, string>, paths: seq<string>, groups: seq<Group>)
    requires IsGrouping(groupOf, paths, groups)
    ensures GroupPaths(map[], paths, groups) == Ok(groupOf)
    ensures forall path | path in paths :: path in groupOf
  {
    hide MatchingGroup;
    GroupPathsComplete(map[], paths, groups);
    GroupPathsKeys(map[], paths, groups);
    assert GroupPaths(map[], paths, groups).value == groupOf;
  }

  /** Some private include leads from a file of group `e.0` to a header of group `e.1`. */
  ghost predicate Crosses(p: Project, groupOf: map<string, string>, e: Edge) {
    e.0 != e.1 && exists f, d :: IncludesHeader(p, f, d) && Leads(groupOf, f.path, "src/" + d.header, e)
  }

  predicate Leads(groupOf: map<string, string>, source: string, target: string, e: Edge) {
    source in groupOf && target in groupOf && e == (groupOf[source], groupOf[target])
  }

  ghost predicate IncludesHeader(p: Project, f: NativeFile, d: Directive) {
    f in p.files && d in f.directives && d.Literal? && d.header in p.headers
  }

  /** `e.0` is a declared group that lists `e.1` among its dependencies. */
  ghost predicate Declares(groups: seq<Group>, e: Edge) {
    exists g :: g in groups && g.name == e.0 && e.1 in g.dependencies
  }

  /** The layers of a project, read off its sources, headers, directives, components and declared groups: exactly the
      sources and headers have a group, each that of the one prefix that covers it; each has one owner, and no component
      is split; and the edges are both the crossings of the includes and the declared dependencies. */
  ghost predicate LayersOut(p: Project, matches: Matches, layers: Layers) {
    && layers.groupOf.Keys == Elements(p.sources) + (set h | h in p.headers :: "src/" + h)
    && (forall path | path in layers.groupOf ::
          StartsWith(path, "src/")
          && exists i, j :: OnlyCover(p.targets.groups, i, j, path[4..]) && p.targets.groups[i].name == layers.groupOf[path])
    && (forall a | a in layers.groupOf :: |Owners(a, p.components, matches)| == 1)
    && (forall a, b | a in layers.groupOf && b in layers.groupOf
                      && Owners(a, p.components, matches) == Owners(b, p.components, matches) ::
          layers.groupOf[a] == layers.groupOf[b])
    && (forall e :: e in layers.edges <==> Crosses(p, layers.groupOf, e))
    && (forall e :: e in layers.edges <==> Declares(p.targets.groups, e))
  }

  lemma QuotientCrosses(p: Project, groupOf: map<string, string>, e: Edge)
    ensures e in Quotient(Graph(p), groupOf) <==> Crosses(p, groupOf, e)
  {
    if e in Quotient(Graph(p), groupOf) {
      var i :| i in Graph(p) && i.0 in groupOf && i.1 in groupOf && groupOf[i.0] != groupOf[i.1]
               && e == (groupOf[i.0], groupOf[i.1]);
      var f :| f in p.files && i in FileEdges(f.path, f.directives, p.headers);
      var d :| d in f.directives && d.Literal? && d.header in p.headers && i == (f.path, "src/" + d.header);
      assert IncludesHeader(p, f, d);
    }
    if Crosses(p, groupOf, e) {
      var f, d :| IncludesHeader(p, f, d) && Leads(groupOf, f.path, "src/" + d.header, e);
      assert (f.path, "src/" + d.header) in FileEdges(f.path, f.directives, p.headers);
      assert (f.path, "src/" + d.header) in Graph(p);
    }
  }

  lemma DeclaredDeclares(groups: seq<Group>, e: Edge)
    ensures e in DeclaredEdges(groups) <==> Declares(groups, e)
  {
    if Declares(groups, e) {
      var g :| g in groups && g.name == e.0 && e.1 in g.dependencies;
      assert (g.name, e.1) in DeclaredEdges(groups);
    }
  }

  lemma CoveredIsMatched(path: string, groups: seq<Group>, name: string)
    ensures MatchingGroup(path, groups) == Ok(name) <==>
            StartsWith(path, "src/") && exists i, j :: OnlyCover(groups, i, j, path[4..]) && groups[i].name == name
  {
    GroupOfPath(path, groups);
    hide MatchingGroup;
  }

  lemma LayeringMeans(p: Project, matches: Matches, layers: Layers)
    ensures IsLayering(p, matches, layers) <==> LayersOut(p, matches, layers)
  {
    var paths, groups, groupOf := CorePaths(p), p.targets.groups, layers.groupOf;
    CorePathsAreCore(p);
    assert forall path :: path in Elements(paths) <==> path in paths;
    hide CorePaths, MatchingGroup, OnlyCover, Graph, Quotient, DeclaredEdges, Owners, Crosses, Declares;
    forall path | path in groupOf
      ensures MatchingGroup(path, groups) == Ok(groupOf[path]) <==>
              StartsWith(path, "src/") && exists i, j :: OnlyCover(groups, i, j, path[4..]) && groups[i].name == groupOf[path]
    {
      CoveredIsMatched(path, groups, groupOf[path]);
    }
    SameEdges(p, layers);
  }

  lemma SameEdges(p: Project, layers: Layers)
    ensures Quotient(Graph(p), layers.groupOf) == layers.edges <==> forall e :: e in layers.edges <==> Crosses(p, layers.groupOf, e)
    ensures layers.edges == DeclaredEdges(p.targets.groups) <==> forall e :: e in layers.edges <==> Declares(p.targets.groups, e)
  {
    forall e
      ensures e in Quotient(Graph(p), layers.groupOf) <==> Crosses(p, layers.groupOf, e)
      ensures e in DeclaredEdges(p.targets.groups) <==> Declares(p.targets.groups, e)
    {
      QuotientCrosses(p, layers.groupOf, e);
      DeclaredDeclares(p.targets.groups, e);
    }
    hide Quotient, Graph, DeclaredEdges, Crosses, Declares;
  }

  /** A project is accepted with these layers exactly when its inventory is and they are its layers. */
  lemma AcceptsExactly(p: Project, matches: Matches, layers: Layers)
    ensures Validated(p, matches) == Ok(layers) <==>
            Inventory(p.files, p.headers, p.components, matches, p.allowed).Ok? && LayersOut(p, matches, layers)
  {
    LayeringMeans(p, matches, layers);
    if Validated(p, matches) == Ok(layers) {
      AcceptedIsLayering(p, matches);
      AcceptedFacts(p, matches);
    }
    hide Validated, Inventory, IsLayering, LayersOut;
    if Inventory(p.files, p.headers, p.components, matches, p.allowed).Ok? && IsLayering(p, matches, layers) {
      LayeringIsAccepted(p, matches, layers);
    }
  }

  lemma LeadsWhereDeclared(p: Project, matches: Matches, layers: Layers, f: NativeFile, d: Directive)
    requires LayersOut(p, matches, layers) && IncludesHeader(p, f, d) && f.path in layers.groupOf
    ensures "src/" + d.header in layers.groupOf
    ensures var e := (layers.groupOf[f.path], layers.groupOf["src/" + d.header]);
            e.0 == e.1 || Declares(p.targets.groups, e)
  {
    var groupOf := layers.groupOf;
    hide OnlyCover, Owners;
    assert "src/" + d.header in set h | h in p.headers :: "src/" + h;
    var e := (groupOf[f.path], groupOf["src/" + d.header]);
    assert Leads(groupOf, f.path, "src/" + d.header, e);
    assert e.0 != e.1 ==> Crosses(p, groupOf, e);
  }

  /** In particular an include from any listed source or header into another group is a declared dependency. */
  lemma IncludesAreDeclared(p: Project, matches: Matches, f: NativeFile, d: Directive)
    requires Validated(p, matches).Ok?
    requires f in p.files && d in f.directives && d.Literal? && d.header in p.headers
    requires f.path in p.sources || exists h | h in p.headers :: f.path == "src/" + h
    ensures var groupOf := Validated(p, matches).value.groupOf;
            && f.path in groupOf && "src/" + d.header in groupOf
            && (groupOf[f.path] == groupOf["src/" + d.header]
                || exists g | g in p.targets.groups :: g.name == groupOf[f.path] && groupOf["src/" + d.header] in g.dependencies)
  {
    hide *;
    var layers := Validated(p, matches).value;
    AcceptsExactly(p, matches, layers);
    GroupedSource(p, matches, layers, f.path);
    Includes(p, f, d);
    LeadsWhereDeclared(p, matches, layers, f, d);
    Declared(p.targets.groups, (layers.groupOf[f.path], layers.groupOf["src/" + d.header]));
  }

  lemma GroupedSource(p: Project, matches: Matches, layers: Layers, path: string)
    requires LayersOut(p, matches, layers)
    requires path in p.sources || exists h | h in p.headers :: path == "src/" + h
    ensures path in layers.groupOf
  {
    assert path in Elements(p.sources) || path in set h | h in p.headers :: "src/" + h;
  }

  lemma Includes(p: Project, f: NativeFile, d: Directive)
    requires f in p.files && d in f.directives && d.Literal? && d.header in p.headers
    ensures IncludesHeader(p, f, d)
  {}

  lemma Declared(groups: seq<Group>, e: Edge)
    ensures Declares(groups, e) <==> exists g | g in groups :: g.name == e.0 && e.1 in g.dependencies
  {}

  // ----- no cycle across groups

  /** An include never leads to a group of higher rank; at the same rank it stays in the group. */
  lemma RankNeverRises(p: Project, matches: Matches, layers: Layers, a: string, b: string)
    requires Layered(p.targets.groups) && LayersOut(p, matches, layers)
    requires (a, b) in Graph(p) && a in layers.groupOf
    ensures b in layers.groupOf
    ensures var groups, groupOf := p.targets.groups, layers.groupOf;
            groupOf[a] == groupOf[b] || Rank(groups, groupOf[b]) < Rank(groups, groupOf[a])
  {
    var groupOf := layers.groupOf;
    var f, d := IncludeOf(p, a, b);
    LeadsWhereDeclared(p, matches, layers, f, d);
    hide LayersOut, Graph;
    if groupOf[a] != groupOf[b] {
      DependencyRanksLower(p.targets.groups, groupOf[a], groupOf[b]);
    }
  }

  /** The directive behind an edge. */
  lemma IncludeOf(p: Project, a: string, b: string) returns (f: NativeFile, d: Directive)
    requires (a, b) in Graph(p)
    ensures IncludesHeader(p, f, d) && f.path == a && "src/" + d.header == b
  {
    var e: Edge;
    f, e :| f in p.files && e in FileEdges(f.path, f.directives, p.headers) && e == (a, b);
    d :| d in f.directives && d.Literal? && d.header in p.headers && e == (f.path, "src/" + d.header);
  }

  ghost predicate Walk(w: seq<string>, graph: set<Edge>) {
    w != [] && forall k | 0 < k < |w| :: (w[k - 1], w[k]) in graph
  }

  /** Along any walk from a core file, of any length, every node is core and the last one ranks no higher; if it ranks
      the same, the whole walk stayed in one group. */
  lemma {:induction false} WalkDescends(p: Project, matches: Matches, layers: Layers, w: seq<string>)
    requires Layered(p.targets.groups) && LayersOut(p, matches, layers)
    requires Walk(w, Graph(p)) && w[0] in layers.groupOf
    ensures forall k | 0 <= k < |w| :: w[k] in layers.groupOf
    ensures var groups, groupOf := p.targets.groups, layers.groupOf;
            var last := groupOf[w[|w| - 1]];
            Rank(groups, last) <= Rank(groups, groupOf[w[0]])
            && (Rank(groups, last) == Rank(groups, groupOf[w[0]]) ==> forall k | 0 <= k < |w| :: groupOf[w[k]] == groupOf[w[0]])
    decreases |w|
  {
    hide LayersOut, Layered, Graph, Rank;
    if |w| > 1 {
      var n := |w| - 1;
      var rest := w[..n];
      assert forall k | 0 < k < |rest| :: (rest[k - 1], rest[k]) == (w[k - 1], w[k]);
      WalkDescends(p, matches, layers, rest);
      assert (w[n - 1], w[n]) in Graph(p) && rest[n - 1] == w[n - 1];
      RankNeverRises(p, matches, layers, w[n - 1], w[n]);
    }
  }

  ghost predicate Together(groupOf: map<string, string>, a: string, b: string) {
    a in groupOf && b in groupOf && groupOf[a] == groupOf[b]
  }

  /** A closed walk along includes, wherever it starts. */
  ghost predicate Cycle(w: seq<string>, graph: set<Edge>) {
    |w| > 1 && Walk(w, graph) && w[0] == w[|w| - 1]
  }

  /** The targets were loaded from their manifest and the project was accepted with these layers. */
  ghost predicate Accepted(p: Project, sets: Sets, isGroup: Pattern, isPrefix: Pattern, matches: Matches, layers: Layers) {
    Loaded(sets, isGroup, isPrefix) == Ok(p.targets) && Validated(p, matches) == Ok(layers)
  }

  /** In an accepted project every include cycle, of any length and wherever it starts, lies inside one group. */
  lemma CyclesStayInGroup(p: Project, sets: Sets, isGroup: Pattern, isPrefix: Pattern, matches: Matches, layers: Layers,
                          w: seq<string>)
    ensures Accepted(p, sets, isGroup, isPrefix, matches, layers) && Cycle(w, Graph(p)) ==>
              forall k | 0 <= k < |w| :: Together(layers.groupOf, w[k], w[0])
  {
    if Accepted(p, sets, isGroup, isPrefix, matches, layers) && Cycle(w, Graph(p)) {
      LoadedIsWellDeclared(sets, isGroup, isPrefix);
      AcceptsExactly(p, matches, layers);
      hide Loaded, Validated;
      var n := |w| - 1;
      assert (w[n - 1], w[n]) in Graph(p);
      var f, d := IncludeOf(p, w[n - 1], w[n]);
      assert w[0] in set h | h in p.headers :: "src/" + h;
      assert w[0] in layers.groupOf;
      hide *;
      WalkOfCycle(p, matches, layers, w);
    }
  }

  lemma WalkOfCycle(p: Project, matches: Matches, layers: Layers, w: seq<string>)
    requires Layered(p.targets.groups) && LayersOut(p, matches, layers)
    requires Cycle(w, Graph(p)) && w[0] in layers.groupOf
    ensures forall k | 0 <= k < |w| :: Together(layers.groupOf, w[k], w[0])
  {
    hide LayersOut, Layered, Graph, Rank;
    WalkDescends(p, matches, layers, w);
  }

  /** A declared dependency is no mere permission: some include crosses between the two groups. */
  lemma DependenciesAreUsed(p: Project, matches: Matches, layers: Layers, g: Group, d: string)
    requires LayersOut(p, matches, layers) && g in p.targets.groups && d in g.dependencies
    ensures exists e :: e in Graph(p) && e.0 in layers.groupOf && e.1 in layers.groupOf
                        && layers.groupOf[e.0] == g.name && layers.groupOf[e.1] == d
  {
    var e := (g.name, d);
    assert Declares(p.targets.groups, e);
    assert Crosses(p, layers.groupOf, e);
    QuotientCrosses(p, layers.groupOf, e);
    hide Graph;
  }
}
