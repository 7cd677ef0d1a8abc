/** An accepted project whose opened headers form a cycle across groups, because one of them is misspelt. */
module MisspeltInclude {
  import opened Prelude
  import opened Ordering
  import opened PosixPath
  import opened CoreTargets
  import opened TargetDeclarations
  import opened NativeIncludes
  import opened IncludeGraph
  import opened Layering
  import opened AcyclicLayers
  import opened OpenedHeaders

  const M := "src/base/m.h"
  const T := "src/top/t.h"

  const LAYERED := Targets([Group("base", ["base"], []), Group("top", ["top"], ["base"])], "base")

  /** The lower header includes the upper one under a name with a `.` component. */
  const ESCAPING :=
    Project(LAYERED, [], {"base/m.h", "top/t.h"},
            [NativeFile(M, [Literal(true, "top/./t.h")]), NativeFile(T, [Literal(true, "base/m.h")])],
            map["base" := [M], "top" := [T]], {("top", "base")})

  const ESCAPING_LAYERS := Layers(map[M := "base", T := "top"], {("top", "base")})

  /** A pattern without wildcards. */
  function Same(path: string, pattern: string): bool { path == pattern }

  lemma LayeredIsLoaded(isGroup: Pattern, isPrefix: Pattern)
    requires isGroup("base") && isGroup("top") && isPrefix("base") && isPrefix("top")
    ensures Loaded(Rendered(LAYERED), isGroup, isPrefix) == Ok(LAYERED)
  {
    var groups := LAYERED.groups;
    assert Names(groups) == ["base", "top"] && Names(groups[..1]) == ["base"] && Names(groups[..0]) == [];
    assert groups[0].prefixes == ["base"] && groups[1].prefixes == ["top"];
    WellDeclaredIsLoaded(LAYERED, isGroup, isPrefix);
  }

  lemma OnePattern(path: string, pattern: string)
    ensures Owns([pattern], path, Same) <==> path == pattern
  {
    assert pattern in [pattern];
  }

  lemma EscapingOwners()
    ensures Owners(M, ESCAPING.components, Same) == {"base"} && Owners(T, ESCAPING.components, Same) == {"top"}
  {
    var components := ESCAPING.components;
    assert components.Keys == {"base", "top"} && components["base"] == [M] && components["top"] == [T];
    assert M[4] != T[4];
    OnePattern(M, M);
    OnePattern(M, T);
    OnePattern(T, M);
    OnePattern(T, T);
    hide Owns;
    assert "base" in Owners(M, components, Same) && "top" in Owners(T, components, Same);
  }

  lemma KeptComponents(a: string, b: string)
    requires IsComponent(a) && IsComponent(b)
    ensures KeepComponents([a, b]) == KeepComponents([a, ".", b]) == [a, b]
  {
    assert [a, b][1..] == [b] && [a, ".", b][1..] == [".", b] && [".", b][1..] == [b] && [b][1..] == [];
    assert KeepComponents([b]) == [b] && KeepComponents([".", b]) == [b];
  }

  lemma JoinTwo(a: string, b: string)
    ensures Join([a, b]) == a + "/" + b
  {
    assert [a, b][1..] == [b];
  }

  /** A path of two components, spelled with and without a `.` between them. */
  lemma TwoComponents(a: string, b: string)
    requires NoSlash(a) && NoSlash(b) && IsComponent(a) && IsComponent(b)
    ensures Components(a + "/" + b) == Components(a + "/" + ("." + "/" + b)) == [a, b]
    ensures AsPosix(a + "/" + b) == AsPosix(a + "/" + ("." + "/" + b)) == a + "/" + b
  {
    SplitWhole(b);
    SplitAfterSlash(".", b);
    SplitAfterSlash(a, b);
    SplitAfterSlash(a, "." + "/" + b);
    KeptComponents(a, b);
    JoinTwo(a, b);
    hide Split, KeepComponents, Join;
    assert Split(a + "/" + b) == [a, b] && Split(a + "/" + ("." + "/" + b)) == [a, ".", b];
  }

  lemma EscapingTexts()
    ensures "top" + "/" + ("." + "/" + "t.h") == "top/./t.h" && "top" + "/" + "t.h" == "top/t.h"
    ensures "base" + "/" + "m.h" == "base/m.h"
  {}

  /** How the three names are read. */
  lemma EscapingNames()
    ensures AsPosix("top/./t.h") == AsPosix("top/t.h") == "top/t.h" && AsPosix("base/m.h") == "base/m.h"
    ensures ".." !in Components("top/./t.h") && ".." !in Components("base/m.h")
  {
    hide *;
    EscapingTexts();
    PartsAreComponents();
    TwoComponents("top", "t.h");
    TwoComponents("base", "m.h");
    assert |".."| == 2 && |"top"| == 3 && |"t.h"| == 3 && |"base"| == 4 && |"m.h"| == 3;
  }

  lemma PartsAreComponents()
    ensures forall s | s in ["top", "t.h", "base", "m.h"] :: NoSlash(s) && IsComponent(s)
  {}

  lemma EscapingPermitted(owners: map<string, string>)
    requires owners == map["base/m.h" := "base", "top/t.h" := "top"]
    ensures Permitted("base", Literal(true, "top/./t.h"), owners, ESCAPING.allowed)
    ensures Permitted("top", Literal(true, "base/m.h"), owners, ESCAPING.allowed)
  {
    hide *;
    EscapingNames();
    SpelledPlainly();
    NoSuffix(owners.Keys);
    PermittedHeader("top", "base", "base/m.h", owners, ESCAPING.allowed);
    PermittedOther("base", "top/./t.h", owners, ESCAPING.allowed);
  }

  lemma PermittedHeader(component: string, target: string, name: string, owners: map<string, string>, allowed: set<Edge>)
    requires !IsAbsolute(name) && ".." !in Components(name) && !StartsWith(name, "./") && '\\' !in name
    requires name in owners && owners[name] == target && (component, target) in allowed
    ensures Permitted(component, Literal(true, name), owners, allowed)
  {}

  lemma PermittedOther(component: string, name: string, owners: map<string, string>, allowed: set<Edge>)
    requires !IsAbsolute(name) && ".." !in Components(name) && !StartsWith(name, "./") && '\\' !in name
    requires name !in owners && !StartsWith(name, "src/") && forall h | h in owners :: !EndsWith("src/" + h, "/" + name)
    ensures Permitted(component, Literal(true, name), owners, allowed)
  {}

  lemma SpelledPlainly()
    ensures var name := "top/./t.h"; !IsAbsolute(name) && !StartsWith(name, "./") && !StartsWith(name, "src/") && '\\' !in name
    ensures var name := "base/m.h"; !IsAbsolute(name) && !StartsWith(name, "./") && '\\' !in name
    ensures "top/./t.h" != "top/t.h" && "top/./t.h" != "base/m.h" && "base/m.h" != "top/t.h"
    ensures ("top", "base") in ESCAPING.allowed
  {
    assert |"top/./t.h"| == 9 && |"top/t.h"| == 7 && |"base/m.h"| == 8;
    assert ("top", "base") in {("top", "base")};
  }

  lemma NoSuffix(headers: set<string>)
    requires headers == {"base/m.h", "top/t.h"}
    ensures forall h | h in headers :: !EndsWith("src/" + h, "/" + "top/./t.h")
  {
    var suffix := "/" + "top/./t.h";
    assert |suffix| == 10 && suffix[0] == '/';
    forall h | h in headers
      ensures !EndsWith("src/" + h, suffix)
    {
      var path := "src/" + h;
      assert h == "base/m.h" ==> |path| == 12 && path[2] == 'c';
      assert h == "top/t.h" ==> |path| == 11 && path[1] == 'r';
      assert path[|path| - 10..][0] == path[|path| - 10];
    }
  }

  lemma EscapingInventory()
    ensures Inventory(ESCAPING.files, ESCAPING.headers, ESCAPING.components, Same, ESCAPING.allowed).Ok?
  {
    var p, owners := ESCAPING, map["base/m.h" := "base", "top/t.h" := "top"];
    EscapingOwners();
    assert "src/" + "base/m.h" == M && "src/" + "top/t.h" == T;
    hide Owners;
    EscapingPermitted(owners);
    hide Permitted, Inventory;
    InventoryExact(p.files, p.headers, p.components, Same, p.allowed);
    EscapingHeaderOwners(owners);
    hide HeaderOwners;
    EscapingClean(owners);
  }

  lemma EscapingHeaderOwners(owners: map<string, string>)
    requires owners == map["base/m.h" := "base", "top/t.h" := "top"]
    ensures AllOwned(ESCAPING.headers, ESCAPING.components, Same)
    ensures HeaderOwners(ESCAPING.headers, ESCAPING.components, Same) == owners
  {
    EscapingOwners();
    EscapingPlaces();
    SpelledPlainly();
    hide Owners, AllOwned, HeaderOwners, RequireOwner;
    TwoHeaderOwners("base/m.h", "top/t.h", "base", "top", ESCAPING.components, Same);
  }

  lemma TwoHeaderOwners(a: string, b: string, ownerA: string, ownerB: string, components: ComponentMap, matches: Matches)
    requires a != b
    requires Owners("src/" + a, components, matches) == {ownerA} && Owners("src/" + b, components, matches) == {ownerB}
    ensures AllOwned({a, b}, components, matches)
    ensures HeaderOwners({a, b}, components, matches) == map[a := ownerA, b := ownerB]
  {
    hide Owners, RequireOwner;
    OnlyOwner("src/" + a, ownerA, components, matches);
    OnlyOwner("src/" + b, ownerB, components, matches);
  }

  lemma OnlyOwner(path: string, name: string, components: ComponentMap, matches: Matches)
    requires Owners(path, components, matches) == {name}
    ensures |Owners(path, components, matches)| == 1 && RequireOwner(path, components, matches) == Ok(name)
  {
    hide Owners;
    assert RequireOwner(path, components, matches).value in {name};
  }

  lemma EscapingClean(owners: map<string, string>)
    requires owners == map["base/m.h" := "base", "top/t.h" := "top"]
    ensures CleanFiles(ESCAPING.files, owners, ESCAPING.components, Same, ESCAPING.allowed)
  {
    EscapingOwners();
    EscapingPermitted(owners);
    hide Owners, Permitted;
    var m, t := ESCAPING.files[0], ESCAPING.files[1];
    assert AllPermitted("base", m.directives, owners, ESCAPING.allowed);
    assert AllPermitted("top", t.directives, owners, ESCAPING.allowed);
    assert CleanFile(m, owners, ESCAPING.components, Same, ESCAPING.allowed);
    assert CleanFile(t, owners, ESCAPING.components, Same, ESCAPING.allowed);
  }

  lemma EscapingPaths()
    ensures Elements(CorePaths(ESCAPING)) == {M, T}
  {
    var all := set h | h in ESCAPING.headers :: "src/" + h;
    assert "src/" + "base/m.h" == M && "src/" + "top/t.h" == T;
    assert all == {M, T};
    assert [] + Sorted(all) == Sorted(all);
  }

  lemma EscapingGroups()
    ensures MatchingGroup(M, LAYERED.groups) == Ok("base") && MatchingGroup(T, LAYERED.groups) == Ok("top")
  {
    var b, t := LAYERED.groups[0], LAYERED.groups[1];
    assert M[4..] == "base/m.h" && T[4..] == "top/t.h";
    assert LAYERED.groups[1..] == [t] && [t][1..] == [] && ["base"][1..] == [] && ["top"][1..] == [];
    assert ("top" + "/")[0] == 't' && "base/m.h"[0] == 'b' && ("base" + "/")[0] == 'b' && "top/t.h"[0] == 't';
    assert StartsWith("base/m.h", "base" + "/") && !StartsWith("base/m.h", "top" + "/");
    assert StartsWith("top/t.h", "top" + "/") && !StartsWith("top/t.h", "base" + "/");
    forall path | path in ["base/m.h", "top/t.h"]
      ensures MatchingGroups(path, LAYERED.groups)
              == MatchingPrefixes(path, "base", ["base"]) + MatchingPrefixes(path, "top", ["top"])
    {}
  }

  lemma EscapingGraph()
    ensures Graph(ESCAPING) == {(T, M)}
  {
    var headers, m, t := ESCAPING.headers, ESCAPING.files[0], ESCAPING.files[1];
    assert ESCAPING.files == [m] + [t];
    assert |"top/./t.h"| == 9 && |"top/t.h"| == 7 && |"base/m.h"| == 8;
    assert "src/" + "base/m.h" == M;
    assert FileEdges(m.path, m.directives, headers) == {};
    assert Literal(true, "base/m.h") in t.directives;
    assert FileEdges(t.path, t.directives, headers) == {(T, M)};
    IncludeEdgesSplit(ESCAPING.files, headers);
    IncludeEdgesSplit([t], headers);
    assert ESCAPING.files[1..] == [t] && [t][1..] == [];
    assert IncludeEdges([], headers) == {};
  }

  lemma EscapingIsLayering()
    ensures IsLayering(ESCAPING, Same, ESCAPING_LAYERS)
  {
    EscapingPaths();
    EscapingGroups();
    EscapingGraph();
    EscapingOwners();
    hide MatchingGroup, Owners, CorePaths, Graph;
    var groupOf := ESCAPING_LAYERS.groupOf;
    assert M[4] != T[4];
    assert |"base"| == 4 && |"top"| == 3;
    assert groupOf.Keys == {M, T} && groupOf[M] == "base" && groupOf[T] == "top";
    assert "base" in {"base"} && "base" !in {"top"};
    assert forall path | path in CorePaths(ESCAPING) :: path in Elements(CorePaths(ESCAPING));
    assert (T, M) in {(T, M)};
    assert Quotient({(T, M)}, groupOf) == {("top", "base")};
    EscapingDeclared();
  }

  lemma EscapingDeclared()
    ensures DeclaredEdges(LAYERED.groups) == {("top", "base")}
  {
    var b, t := LAYERED.groups[0], LAYERED.groups[1];
    assert LAYERED.groups == [b, t] && t in LAYERED.groups && "base" in t.dependencies;
  }

  lemma EscapingOpens()
    ensures (M, T) in OpenedGraph(ESCAPING) && (T, M) in OpenedGraph(ESCAPING)
  {
    EscapingNames();
    EscapingFolders();
    EscapingPlaces();
    hide AsPosix, Folder, IsPrivate, Components;
    var m, t := ESCAPING.files[0], ESCAPING.files[1];
    assert m in ESCAPING.files && t in ESCAPING.files;
    var up, down := Literal(true, "top/./t.h"), Literal(true, "base/m.h");
    assert up in m.directives && down in t.directives;
    assert Opened(M, up, ESCAPING.headers) == Some(T);
    assert Opened(T, down, ESCAPING.headers) == Some(M);
    hide Opened;
  }

  lemma EscapingPlaces()
    ensures !IsPrivate("src/base/" + "top/t.h", ESCAPING.headers) && !IsPrivate("src/top/" + "base/m.h", ESCAPING.headers)
    ensures "src/" + "base/m.h" == M && "src/" + "top/t.h" == T
  {
    var up, down := "src/base/" + "top/t.h", "src/top/" + "base/m.h";
    assert |up[4..]| == 12 && |down[4..]| == 12;
    assert |"base/m.h"| == 8 && |"top/t.h"| == 7;
  }

  lemma EscapingFolders()
    ensures Folder(M) == "src/base/" && Folder(T) == "src/top/"
  {
    FolderOf("src/base/", "m.h");
    FolderOf("src/top/", "t.h");
    assert "src/base/" + "m.h" == M && "src/top/" + "t.h" == T;
  }

  lemma {:induction false} FolderOf(folder: string, name: string)
    requires folder != [] && folder[|folder| - 1] == '/' && NoSlash(name)
    ensures Folder(folder + name) == folder
  {
    if name == [] {
      assert folder + name == folder;
    } else {
      assert (folder + name)[..|folder + name| - 1] == folder + name[..|name| - 1];
      FolderOf(folder, name[..|name| - 1]);
    }
  }

  /** The condition is needed: this project is accepted, yet two headers of different groups open each other. */
  lemma MisspeltCycleCrosses(isGroup: Pattern, isPrefix: Pattern)
    requires isGroup("base") && isGroup("top") && isPrefix("base") && isPrefix("top")
    ensures Accepted(ESCAPING, Rendered(LAYERED), isGroup, isPrefix, Same, ESCAPING_LAYERS) && FromTree(ESCAPING.headers)
    ensures Cycle([M, T, M], OpenedGraph(ESCAPING)) && !Together(ESCAPING_LAYERS.groupOf, M, T)
  {
    hide *;
    LayeredIsLoaded(isGroup, isPrefix);
    EscapingAccepted();
    AcceptedOf(isGroup, isPrefix);
    EscapingOpens();
    EscapingCycle();
    EscapingHeaders();
  }

  lemma EscapingAccepted()
    ensures Validated(ESCAPING, Same) == Ok(ESCAPING_LAYERS)
  {
    EscapingInventory();
    EscapingIsLayering();
    hide *;
    LayeringMeans(ESCAPING, Same, ESCAPING_LAYERS);
    AcceptsExactly(ESCAPING, Same, ESCAPING_LAYERS);
  }

  lemma AcceptedOf(isGroup: Pattern, isPrefix: Pattern)
    requires Loaded(Rendered(LAYERED), isGroup, isPrefix) == Ok(LAYERED)
    requires Validated(ESCAPING, Same) == Ok(ESCAPING_LAYERS)
    ensures Accepted(ESCAPING, Rendered(LAYERED), isGroup, isPrefix, Same, ESCAPING_LAYERS)
  {
    hide Loaded, Validated, Rendered;
  }

  lemma EscapingCycle()
    requires (M, T) in OpenedGraph(ESCAPING) && (T, M) in OpenedGraph(ESCAPING)
    ensures Cycle([M, T, M], OpenedGraph(ESCAPING)) && !Together(ESCAPING_LAYERS.groupOf, M, T)
  {
    hide OpenedGraph;
    assert M[4] != T[4];
    assert |"base"| == 4 && |"top"| == 3;
    var w := [M, T, M];
    assert w[0] == M && w[1] == T && w[2] == M;
  }

  lemma EscapingHeaders()
    ensures FromTree(ESCAPING.headers)
  {
    EscapingNames();
    hide AsPosix, Components;
    assert "base/m.h"[6..] == ".h" && "top/t.h"[5..] == ".h";
  }
}
