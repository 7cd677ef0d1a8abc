/** The collected relations are exactly the private include graph of the native files. */
module IncludeGraph {
  import opened Prelude
  import opened Ordering
  import opened NativeIncludes
  import PosixPath

  type Edge = (string, string)

  /** The private includes of one file, read straight from its directives. */
  ghost function FileEdges(source: string, ds: seq<Directive>, headers: set<string>): set<Edge> {
    set d | d in ds && d.Literal? && d.header in headers :: (source, "src/" + d.header)
  }

  ghost function IncludeEdges(files: seq<NativeFile>, headers: set<string>): set<Edge> {
    set f, e | f in files && e in FileEdges(f.path, f.directives, headers) :: e
  }

  ghost function EdgesOf(relations: seq<Relation>): set<Edge> {
    set r | r in relations :: (r.source, r.target)
  }

  /** The components on both ends are the reviewed owners, and the edge between them is allowed. */
  ghost predicate Justified(r: Relation, components: ComponentMap, matches: Matches, allowed: set<Edge>) {
    && Owners(r.source, components, matches) == {r.sourceComponent}
    && Owners(r.target, components, matches) == {r.targetComponent}
    && (r.sourceComponent == r.targetComponent || (r.sourceComponent, r.targetComponent) in allowed)
  }

  /** A directive that the rules permit in a file of this component. */
  ghost predicate Permitted(component: string, d: Directive, owners: map<string, string>, allowed: set<Edge>) {
    && d.Literal?
    && !PosixPath.IsAbsolute(d.header) && ".." !in PosixPath.Components(d.header)
    && !StartsWith(d.header, "./") && '\\' !in d.header
    && if d.header in owners then
         d.quoted && (component == owners[d.header] || (component, owners[d.header]) in allowed)
       else
         !StartsWith(d.header, "src/") && forall h | h in owners :: !EndsWith("src/" + h, "/" + d.header)
  }

  /** A directive fails nowhere exactly when it is permitted, and then it contributes its one edge if it has one. */
  lemma JudgeMeans(source: string, component: string, d: Directive, owners: map<string, string>, allowed: set<Edge>)
    ensures var v := Judge(source, component, d, owners, allowed);
            && (v.failures == [] <==> Permitted(component, d, owners, allowed))
            && (v.failures == [] ==>
                v.relation == if d.Literal? && d.header in owners
                              then Some(Relation(source, component, "src/" + d.header, owners[d.header])) else None)
            && (v.failures == [] && v.relation.Some? ==>
                component == owners[d.header] || (component, owners[d.header]) in allowed)
  {}

  ghost predicate AllPermitted(component: string, ds: seq<Directive>, owners: map<string, string>, allowed: set<Edge>) {
    forall d | d in ds :: Permitted(component, d, owners, allowed)
  }

  ghost predicate AllJustified(relations: seq<Relation>, components: ComponentMap, matches: Matches, allowed: set<Edge>) {
    forall r | r in relations :: Justified(r, components, matches, allowed)
  }

  ghost predicate OwnersAgree(owners: map<string, string>, components: ComponentMap, matches: Matches) {
    forall h | h in owners :: Owners("src/" + h, components, matches) == {owners[h]}
  }

  lemma AddClean(t: Tally, source: string, component: string, d: Directive, owners: map<string, string>,
                 components: ComponentMap, matches: Matches, allowed: set<Edge>)
    requires OwnersAgree(owners, components, matches) && Owners(source, components, matches) == {component}
    ensures var next := Add(t, Judge(source, component, d, owners, allowed));
            && (next.failures == [] <==> t.failures == [] && Permitted(component, d, owners, allowed))
            && (next.failures == [] ==>
                && EdgesOf(next.relations) == EdgesOf(t.relations) + FileEdges(source, [d], owners.Keys)
                && (AllJustified(t.relations, components, matches, allowed) ==>
                    AllJustified(next.relations, components, matches, allowed)))
  {
    JudgeMeans(source, component, d, owners, allowed);
    hide Judge, Permitted;
    var v := Judge(source, component, d, owners, allowed);
    var next := Add(t, v);
    if next.failures == [] {
      if v.relation.Some? {
        assert next.relations == t.relations + [v.relation.value];
        assert EdgesOf(next.relations) == EdgesOf(t.relations) + {(source, "src/" + d.header)};
        assert d in [d];
        assert FileEdges(source, [d], owners.Keys) == {(source, "src/" + d.header)};
      } else {
        assert FileEdges(source, [d], owners.Keys) == {};
      }
    }
  }

  lemma FileEdgesSplit(source: string, ds: seq<Directive>, headers: set<string>)
    requires ds != []
    ensures FileEdges(source, ds, headers) == FileEdges(source, [ds[0]], headers) + FileEdges(source, ds[1..], headers)
  {
    assert ds == [ds[0]] + ds[1..];
    forall e
      ensures e in FileEdges(source, ds, headers) <==>
              e in FileEdges(source, [ds[0]], headers) || e in FileEdges(source, ds[1..], headers)
    {
      if e in FileEdges(source, ds, headers) {
        var d :| d in ds && d.Literal? && d.header in headers && e == (source, "src/" + d.header);
        assert d in [ds[0]] || d in ds[1..];
      }
    }
  }

  lemma {:induction false} JudgeAllClean(t: Tally, source: string, component: string, ds: seq<Directive>,
                                         owners: map<string, string>, components: ComponentMap, matches: Matches,
                                         allowed: set<Edge>)
    requires OwnersAgree(owners, components, matches) && Owners(source, components, matches) == {component}
    ensures var end := JudgeAll(t, source, component, ds, owners, allowed);
            && (end.failures == [] <==> t.failures == [] && AllPermitted(component, ds, owners, allowed))
            && (end.failures == [] ==>
                && EdgesOf(end.relations) == EdgesOf(t.relations) + FileEdges(source, ds, owners.Keys)
                && (AllJustified(t.relations, components, matches, allowed) ==>
                    AllJustified(end.relations, components, matches, allowed)))
    decreases |ds|
  {
    hide Judge, Permitted, Add, EdgesOf, AllJustified, OwnersAgree, Owners;
    if ds == [] {
      assert FileEdges(source, ds, owners.Keys) == {};
    } else {
      AddClean(t, source, component, ds[0], owners, components, matches, allowed);
      JudgeAllClean(Add(t, Judge(source, component, ds[0], owners, allowed)), source, component, ds[1..], owners,
                    components, matches, allowed);
      FileEdgesSplit(source, ds, owners.Keys);
      assert ds == [ds[0]] + ds[1..];
    }
  }

  /** Every directive of the file is permitted for the component that owns it. */
  ghost predicate CleanFile(f: NativeFile, owners: map<string, string>, components: ComponentMap, matches: Matches,
                            allowed: set<Edge>) {
    exists component :: Owners(f.path, components, matches) == {component}
                        && AllPermitted(component, f.directives, owners, allowed)
  }

  ghost predicate CleanFiles(files: seq<NativeFile>, owners: map<string, string>, components: ComponentMap,
                             matches: Matches, allowed: set<Edge>) {
    forall f | f in files :: CleanFile(f, owners, components, matches, allowed)
  }

  lemma IncludeEdgesSplit(files: seq<NativeFile>, headers: set<string>)
    requires files != []
    ensures IncludeEdges(files, headers)
            == FileEdges(files[0].path, files[0].directives, headers) + IncludeEdges(files[1..], headers)
  {
    hide FileEdges;
    assert files == [files[0]] + files[1..];
    forall e
      ensures e in IncludeEdges(files, headers) <==>
              e in FileEdges(files[0].path, files[0].directives, headers) || e in IncludeEdges(files[1..], headers)
    {
      if e in IncludeEdges(files, headers) {
        var f :| f in files && e in FileEdges(f.path, f.directives, headers);
        assert f == files[0] || f in files[1..];
      }
    }
  }

  /** Failures are never taken back, so a scan without any met only clean files. */
  lemma {:induction false} ScanClean(t: Tally, files: seq<NativeFile>, owners: map<string, string>,
                                     components: ComponentMap, matches: Matches, allowed: set<Edge>)
    requires OwnersAgree(owners, components, matches)
    ensures var end := ScanFiles(t, files, components, matches, owners, allowed);
            var clean := end.Ok? && end.value.failures == [];
            && (clean <==> t.failures == [] && CleanFiles(files, owners, components, matches, allowed))
            && (clean ==>
                && EdgesOf(end.value.relations) == EdgesOf(t.relations) + IncludeEdges(files, owners.Keys)
                && (AllJustified(t.relations, components, matches, allowed) ==>
                    AllJustified(end.value.relations, components, matches, allowed)))
    decreases |files|
  {
    hide JudgeAll, EdgesOf, AllJustified, OwnersAgree, Owners, AllPermitted, FileEdges;
    if files == [] {
      assert IncludeEdges(files, owners.Keys) == {};
    } else {
      var f := files[0];
      var owner := RequireOwner(f.path, components, matches);
      assert files == [f] + files[1..];
      FirstFileClean(f, owners, components, matches, allowed);
      hide CleanFile;
      assert CleanFiles(files, owners, components, matches, allowed) <==>
             CleanFile(f, owners, components, matches, allowed) && CleanFiles(files[1..], owners, components, matches, allowed);
      if owner.Ok? {
        JudgeAllClean(t, f.path, owner.value, f.directives, owners, components, matches, allowed);
        ScanClean(JudgeAll(t, f.path, owner.value, f.directives, owners, allowed), files[1..], owners, components,
                  matches, allowed);
        IncludeEdgesSplit(files, owners.Keys);
      }
    }
  }

  lemma FirstFileClean(f: NativeFile, owners: map<string, string>, components: ComponentMap, matches: Matches,
                       allowed: set<Edge>)
    ensures var owner := RequireOwner(f.path, components, matches);
            CleanFile(f, owners, components, matches, allowed) <==>
            owner.Ok? && AllPermitted(owner.value, f.directives, owners, allowed)
  {
    hide AllPermitted, Owners;
    var owner := RequireOwner(f.path, components, matches);
    if CleanFile(f, owners, components, matches, allowed) {
      var component :| Owners(f.path, components, matches) == {component};
      assert |{component}| == 1;
    }
    if owner.Ok? {
      forall other | {other} == {owner.value} ensures other == owner.value { assert other in {owner.value}; }
    }
  }

  /** Every private header has exactly one owner. */
  ghost predicate AllOwned(headers: set<string>, components: ComponentMap, matches: Matches) {
    forall h | h in headers :: |Owners("src/" + h, components, matches)| == 1
  }

  /** Accepted exactly when there are headers, each has one owner, and every file is clean; the relations are then the
      include graph, with reviewed owners and only allowed component edges. */
  lemma InventoryExact(files: seq<NativeFile>, headers: set<string>, components: ComponentMap, matches: Matches,
                       allowed: set<Edge>)
    ensures var r := Inventory(files, headers, components, matches, allowed);
            && (r.Ok? <==> headers != {} && AllOwned(headers, components, matches)
                           && CleanFiles(files, HeaderOwners(headers, components, matches), components, matches, allowed))
            && (r.Ok? ==> EdgesOf(r.value) == IncludeEdges(files, headers)
                          && AllJustified(r.value, components, matches, allowed))
  {
    hide ScanFiles, CleanFiles, Owners, IncludeEdges;
    if headers != {} && AllOwned(headers, components, matches) {
      var owners := HeaderOwners(headers, components, matches);
      assert OwnersAgree(owners, components, matches);
      assert owners.Keys == headers;
      ScanClean(Tally([], []), files, owners, components, matches, allowed);
      assert EdgesOf([]) == {};
    }
  }

  // ----- reviewed edges

  /** A complete wildcard row between known components. */
  predicate IsReviewed(row: EdgeRow, names: set<string>) {
    row.EdgeRow? && row.source != "" && row.target != "" && row.kind == "*" && row.source in names && row.target in names
  }

  function Ends(row: EdgeRow): Edge
    requires row.EdgeRow?
  {
    (row.source, row.target)
  }

  /** Complete rows between known components that name no edge twice and none of `done`. */
  ghost predicate IsEdgeList(done: set<Edge>, rows: seq<EdgeRow>, names: set<string>) {
    && (forall i | 0 <= i < |rows| :: IsReviewed(rows[i], names) && Ends(rows[i]) !in done)
    && forall i, j | 0 <= i < j < |rows| :: Ends(rows[i]) != Ends(rows[j])
  }

  ghost function NamedEdges(rows: seq<EdgeRow>): set<Edge> {
    set row | row in rows && row.EdgeRow? :: Ends(row)
  }

  lemma EdgeListFirst(done: set<Edge>, first: EdgeRow, rest: seq<EdgeRow>, names: set<string>)
    ensures IsEdgeList(done, [first] + rest, names) <==>
              IsReviewed(first, names) && Ends(first) !in done && IsEdgeList(done + {Ends(first)}, rest, names)
  {
    var rows := [first] + rest;
    assert forall i | 0 <= i < |rest| :: rows[i + 1] == rest[i];
    if IsEdgeList(done, rows, names) {
      assert rows[0] == first;
      forall i | 0 <= i < |rest|
        ensures IsReviewed(rest[i], names) && Ends(rest[i]) !in done + {Ends(first)}
      {
        assert IsReviewed(rows[i + 1], names) && Ends(rows[0]) != Ends(rows[i + 1]);
      }
      forall i, j | 0 <= i < j < |rest|
        ensures Ends(rest[i]) != Ends(rest[j])
      {
        assert Ends(rows[i + 1]) != Ends(rows[j + 1]);
      }
    }
  }

  /** The edge list is accepted exactly when its rows are complete, between known components, and name no edge twice or
      one already present; it then adds exactly the edges they name. */
  lemma {:induction false} EdgeListExactly(done: set<Edge>, rows: seq<EdgeRow>, names: set<string>)
    ensures AllowedEdges(done, rows, names).Ok? <==> IsEdgeList(done, rows, names)
    ensures AllowedEdges(done, rows, names).Ok? ==> AllowedEdges(done, rows, names).value == done + NamedEdges(rows)
    decreases |rows|
  {
    if rows != [] {
      var first, rest := rows[0], rows[1..];
      assert rows == [first] + rest;
      EdgeListFirst(done, first, rest, names);
      hide IsEdgeList;
      if first.EdgeRow? {
        EdgeListExactly(done + {Ends(first)}, rest, names);
        assert NamedEdges(rows) == {Ends(first)} + NamedEdges(rest);
      }
    }
  }

  /** Accepted includes cross components only along reviewed edges between known components. */
  lemma CrossingsAreReviewed(files: seq<NativeFile>, headers: set<string>, components: ComponentMap, matches: Matches,
                             rows: seq<EdgeRow>, allowed: set<Edge>)
    requires AllowedEdges({}, rows, components.Keys) == Ok(allowed)
    requires Inventory(files, headers, components, matches, allowed).Ok?
    ensures forall e | e in ComponentEdges(Inventory(files, headers, components, matches, allowed).value) ::
              e.0 in components && e.1 in components && EdgeRow(e.0, e.1, "*") in rows
  {
    InventoryExact(files, headers, components, matches, allowed);
    EdgeListExactly({}, rows, components.Keys);
    hide Inventory, CleanFiles, AllowedEdges;
    forall e | e in ComponentEdges(Inventory(files, headers, components, matches, allowed).value)
      ensures e.0 in components && e.1 in components && EdgeRow(e.0, e.1, "*") in rows
    {
      assert e in allowed;
      var row :| row in rows && row.EdgeRow? && Ends(row) == e;
      var i :| 0 <= i < |rows| && rows[i] == row;
      assert IsReviewed(rows[i], components.Keys);
    }
  }
}
