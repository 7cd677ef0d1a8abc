/** What the include inventory reports: every failure with its cause, and every edge between components. */
module InventoryReport {
  import opened Prelude
  import opened Ordering
  import opened PosixPath
  import opened NativeIncludes
  import opened IncludeGraph

  // ----- owners

  /** Some pattern of the component matches the path. */
  ghost predicate Claims(components: ComponentMap, name: string, path: string, matches: Matches) {
    name in components && exists p :: p in components[name] && matches(path, p)
  }

  /** A path has an owner exactly when that component alone claims it by one of its patterns. */
  lemma OwnerExactly(path: string, components: ComponentMap, matches: Matches, name: string)
    ensures RequireOwner(path, components, matches) == Ok(name) <==>
            Claims(components, name, path, matches) && forall other | Claims(components, other, path, matches) :: other == name
  {
    var owners := Owners(path, components, matches);
    assert forall n :: n in owners <==> Claims(components, n, path, matches);
    hide Claims, Owners;
    if RequireOwner(path, components, matches) == Ok(name) { assert name in owners; }
    if name in owners && forall other | other in owners :: other == name {
      assert owners == {name};
      assert RequireOwner(path, components, matches).value in owners;
    }
  }

  // ----- failures

  predicate Escapes(d: Directive) {
    d.Literal? && (IsAbsolute(d.header) || ".." in Components(d.header))
  }

  predicate Unclean(d: Directive) {
    d.Literal? && !Escapes(d) && (StartsWith(d.header, "./") || '\\' in d.header)
  }

  /** A literal include that neither escapes nor is spelled with `./` or a backslash. */
  predicate Clean(d: Directive) {
    d.Literal? && !Escapes(d) && !Unclean(d)
  }

  /** The header is the tail of a private header's path. */
  ghost predicate EndsPrivate(d: Directive, headers: set<string>) {
    d.Literal? && exists h :: h in headers && EndsWith("src/" + h, "/" + d.header)
  }

  /** Why a directive in a file of this component fails, one reason at a time. */
  ghost predicate Fails(component: string, d: Directive, owners: map<string, string>, allowed: set<Edge>, f: Failure) {
    match f
    case NotLiteralInclude => d.NotLiteral?
    case IncludeEscapes => Escapes(d)
    case NotCanonical => Unclean(d)
    case NeedsQuotes => Clean(d) && d.header in owners && !d.quoted
    case ForbiddenEdge =>
      Clean(d) && d.header in owners && component != owners[d.header] && (component, owners[d.header]) !in allowed
    case NotModuleQualified => Clean(d) && d.header !in owners && EndsPrivate(d, owners.Keys)
    case NamesSource => Clean(d) && d.header !in owners && !EndsPrivate(d, owners.Keys) && StartsWith(d.header, "src/")
  }

  lemma JudgeFailsExactly(source: string, component: string, d: Directive, owners: map<string, string>, allowed: set<Edge>,
                          f: Failure)
    ensures f in Judge(source, component, d, owners, allowed).failures <==> Fails(component, d, owners, allowed, f)
  {
    hide Components, EndsWith;
  }

  /** Some directive of the file fails so. */
  ghost predicate FileFails(f: NativeFile, component: string, owners: map<string, string>, allowed: set<Edge>, why: Failure) {
    exists d :: d in f.directives && Fails(component, d, owners, allowed, why)
  }

  lemma {:induction false} JudgeAllFails(t: Tally, f: NativeFile, from: nat, component: string, owners: map<string, string>,
                                         allowed: set<Edge>, why: Failure)
    requires from <= |f.directives|
    ensures why in JudgeAll(t, f.path, component, f.directives[from..], owners, allowed).failures <==>
            why in t.failures || exists i :: from <= i < |f.directives| && Fails(component, f.directives[i], owners, allowed, why)
    decreases |f.directives| - from
  {
    hide Judge, Fails;
    if from < |f.directives| {
      var d := f.directives[from];
      assert f.directives[from..][1..] == f.directives[from + 1..];
      JudgeFailsExactly(f.path, component, d, owners, allowed, why);
      JudgeAllFails(Add(t, Judge(f.path, component, d, owners, allowed)), f, from + 1, component, owners, allowed, why);
    }
  }

  /** Some file fails so, under the component that owns it. */
  ghost predicate SomeFails(files: seq<NativeFile>, components: ComponentMap, matches: Matches, owners: map<string, string>,
                            allowed: set<Edge>, why: Failure)
  {
    exists f, component ::
      f in files && Owners(f.path, components, matches) == {component} && FileFails(f, component, owners, allowed, why)
  }

  lemma FileFailsMeans(t: Tally, f: NativeFile, component: string, owners: map<string, string>, allowed: set<Edge>, why: Failure)
    ensures why in JudgeAll(t, f.path, component, f.directives, owners, allowed).failures <==>
            why in t.failures || FileFails(f, component, owners, allowed, why)
  {
    JudgeAllFails(t, f, 0, component, owners, allowed, why);
    assert f.directives[0..] == f.directives;
    hide Fails, JudgeAll;
    if FileFails(f, component, owners, allowed, why) {
      var d :| d in f.directives && Fails(component, d, owners, allowed, why);
      var i :| 0 <= i < |f.directives| && f.directives[i] == d;
    }
  }

  lemma {:induction false} ScanFails(t: Tally, files: seq<NativeFile>, components: ComponentMap, matches: Matches,
                                     owners: map<string, string>, allowed: set<Edge>, why: Failure)
    requires ScanFiles(t, files, components, matches, owners, allowed).Ok?
    ensures why in ScanFiles(t, files, components, matches, owners, allowed).value.failures <==>
            why in t.failures || SomeFails(files, components, matches, owners, allowed, why)
    decreases |files|
  {
    hide JudgeAll, FileFails, Owners;
    if files != [] {
      var f, component := files[0], RequireOwner(files[0].path, components, matches).value;
      var next := JudgeAll(t, f.path, component, f.directives, owners, allowed);
      FileFailsMeans(t, f, component, owners, allowed, why);
      ScanFails(next, files[1..], components, matches, owners, allowed, why);
      assert files == [f] + files[1..];
      FirstFails(f, files[1..], component, components, matches, owners, allowed, why);
    }
  }

  lemma FirstFails(f: NativeFile, rest: seq<NativeFile>, component: string, components: ComponentMap, matches: Matches,
                   owners: map<string, string>, allowed: set<Edge>, why: Failure)
    requires Owners(f.path, components, matches) == {component}
    ensures SomeFails([f] + rest, components, matches, owners, allowed, why) <==>
            FileFails(f, component, owners, allowed, why) || SomeFails(rest, components, matches, owners, allowed, why)
  {
    hide FileFails, Owners;
    var files := [f] + rest;
    if SomeFails(files, components, matches, owners, allowed, why) {
      var g, c :| g in files && Owners(g.path, components, matches) == {c} && FileFails(g, c, owners, allowed, why);
      if g == f { assert c in {component}; }
    }
    if FileFails(f, component, owners, allowed, why) { assert f in files; }
    if SomeFails(rest, components, matches, owners, allowed, why) {
      var g, c :| g in rest && Owners(g.path, components, matches) == {c} && FileFails(g, c, owners, allowed, why);
      assert g in files;
    }
  }

  lemma {:induction false} ScanErrs(t: Tally, files: seq<NativeFile>, components: ComponentMap, matches: Matches,
                                    owners: map<string, string>, allowed: set<Edge>)
    ensures var r := ScanFiles(t, files, components, matches, owners, allowed); r.Err? ==> r.error == NoSingleOwner
    decreases |files|
  {
    hide JudgeAll, Owners;
    if files != [] {
      var component := RequireOwner(files[0].path, components, matches);
      if component.Ok? {
        ScanErrs(JudgeAll(t, files[0].path, component.value, files[0].directives, owners, allowed), files[1..], components,
                 matches, owners, allowed);
      }
    }
  }

  /** A refused inventory reports a failure exactly when some directive of some file has it. */
  lemma ReportsExactly(files: seq<NativeFile>, headers: set<string>, components: ComponentMap, matches: Matches,
                       allowed: set<Edge>, why: Failure)
    ensures var r := Inventory(files, headers, components, matches, allowed);
            r.Err? && r.error.Failures? ==>
              && AllOwned(headers, components, matches)
              && (why in r.error.failures <==>
                  SomeFails(files, components, matches, HeaderOwners(headers, components, matches), allowed, why))
  {
    hide ScanFiles, Owners, SomeFails;
    var r := Inventory(files, headers, components, matches, allowed);
    if r.Err? && r.error.Failures? {
      var owners := HeaderOwners(headers, components, matches);
      ScanErrs(Tally([], []), files, components, matches, owners, allowed);
      ScanFails(Tally([], []), files, components, matches, owners, allowed, why);
    }
  }

  // ----- component edges

  /** Some file of one component includes a private header of another. */
  ghost predicate Crossing(files: seq<NativeFile>, headers: set<string>, components: ComponentMap, matches: Matches, e: Edge) {
    e.0 != e.1 && exists f, d ::
      && f in files && d in f.directives && d.Literal? && d.header in headers
      && Owners(f.path, components, matches) == {e.0} && Owners("src/" + d.header, components, matches) == {e.1}
  }

  /** The component edges of an accepted inventory are exactly the crossings of its includes. */
  lemma CrossingsExactly(files: seq<NativeFile>, headers: set<string>, components: ComponentMap, matches: Matches,
                         allowed: set<Edge>, e: Edge)
    requires Inventory(files, headers, components, matches, allowed).Ok?
    ensures e in ComponentEdges(Inventory(files, headers, components, matches, allowed).value) <==>
            Crossing(files, headers, components, matches, e)
  {
    InventoryExact(files, headers, components, matches, allowed);
    var relations := Inventory(files, headers, components, matches, allowed).value;
    hide *;
    if e in ComponentEdges(relations) { EdgeCrosses(files, headers, components, matches, allowed, relations, e); }
    if Crossing(files, headers, components, matches, e) {
      CrossingIsEdge(files, headers, components, matches, allowed, relations, e);
    }
  }

  lemma EdgeCrosses(files: seq<NativeFile>, headers: set<string>, components: ComponentMap, matches: Matches,
                    allowed: set<Edge>, relations: seq<Relation>, e: Edge)
    requires EdgesOf(relations) == IncludeEdges(files, headers) && AllJustified(relations, components, matches, allowed)
    requires e in ComponentEdges(relations)
    ensures Crossing(files, headers, components, matches, e)
  {
    hide Owners, IncludeEdges;
    var r :| r in relations && r.sourceComponent != r.targetComponent && e == (r.sourceComponent, r.targetComponent);
    assert (r.source, r.target) in EdgesOf(relations);
    RelationBehind(files, headers, r.source, r.target);
  }

  lemma CrossingIsEdge(files: seq<NativeFile>, headers: set<string>, components: ComponentMap, matches: Matches,
                       allowed: set<Edge>, relations: seq<Relation>, e: Edge)
    requires EdgesOf(relations) == IncludeEdges(files, headers) && AllJustified(relations, components, matches, allowed)
    requires Crossing(files, headers, components, matches, e)
    ensures e in ComponentEdges(relations)
  {
    hide Owners;
    var f, d :| f in files && d in f.directives && d.Literal? && d.header in headers
                && Owners(f.path, components, matches) == {e.0} && Owners("src/" + d.header, components, matches) == {e.1};
    assert (f.path, "src/" + d.header) in FileEdges(f.path, f.directives, headers);
    assert (f.path, "src/" + d.header) in EdgesOf(relations);
    var r :| r in relations && (r.source, r.target) == (f.path, "src/" + d.header);
    assert r.sourceComponent in {e.0} && r.targetComponent in {e.1};
  }

  lemma RelationBehind(files: seq<NativeFile>, headers: set<string>, source: string, target: string)
    requires (source, target) in IncludeEdges(files, headers)
    ensures exists f, d :: f in files && d in f.directives && d.Literal? && d.header in headers
                           && f.path == source && "src/" + d.header == target
  {
    var f, e :| f in files && e in FileEdges(f.path, f.directives, headers) && e == (source, target);
    var d :| d in f.directives && d.Literal? && d.header in headers && e == (f.path, "src/" + d.header);
  }
}
