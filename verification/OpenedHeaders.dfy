/** The headers a compiler opens, against the headers the inventory reads off the spelling of a directive. */
module OpenedHeaders {
  import opened Prelude
  import opened Ordering
  import opened PosixPath
  import opened CoreTargets
  import opened TargetDeclarations
  import opened NativeIncludes
  import opened IncludeGraph
  import opened Layering
  import opened AcyclicLayers

  // ----- which file a directive opens

  /** The directory part of a path, up to its last slash. */
  function Folder(path: string): string {
    if path == [] || path[|path| - 1] == '/' then path else Folder(path[..|path| - 1])
  }

  predicate IsPrivate(path: string, headers: set<string>) {
    StartsWith(path, "src/") && path[4..] in headers
  }

  /** The private header a compiler with `src` on its include path opens: for a quoted name first beside the including
      file, then under `src`. Empty and `.` components mean nothing to the file system. */
  function Opened(source: string, d: Directive, headers: set<string>): Option<string> {
    if d.NotLiteral? || EndsWith(d.header, "/") || EndsWith(d.header, "/.") then None else
      var name := AsPosix(d.header);
      if d.quoted && IsPrivate(Folder(source) + name, headers) then Some(Folder(source) + name)
      else if name in headers then Some("src/" + name)
      else None
  }

  /** The private header the inventory takes the directive to include. */
  function ReadAs(d: Directive, headers: set<string>): Option<string> {
    if d.Literal? && d.header in headers then Some("src/" + d.header) else None
  }

  /** A private header under a name with empty or `.` components. */
  predicate Misspelt(source: string, d: Directive, headers: set<string>) {
    d.Literal? && AsPosix(d.header) != d.header && Opened(source, d, headers).Some?
  }

  /** A private header whose name is found beside the including file first. */
  predicate Shadowed(source: string, d: Directive, headers: set<string>) {
    d.Literal? && d.header in headers && Folder(source) != "src/" && IsPrivate(Folder(source) + d.header, headers)
  }

  /** Header names as the tree listing gives them. */
  ghost predicate FromTree(headers: set<string>) {
    forall h | h in headers :: AsPosix(h) == h && EndsWith(h, ".h")
  }

  /** A permitted directive opens what the inventory reads, exactly when it is neither misspelt nor shadowed. */
  lemma OpensWhatIsRead(source: string, component: string, d: Directive, owners: map<string, string>, allowed: set<Edge>)
    requires FromTree(owners.Keys) && Permitted(component, d, owners, allowed)
    ensures Opened(source, d, owners.Keys) == ReadAs(d, owners.Keys) <==>
            !Misspelt(source, d, owners.Keys) && !Shadowed(source, d, owners.Keys)
  {
    hide AsPosix, Folder;
    if d.header in owners {
      OpensHeader(source, d, owners.Keys);
    } else if AsPosix(d.header) == d.header {
      OpensNothing(source, d.header, owners.Keys);
    }
  }

  lemma OpensHeader(source: string, d: Directive, headers: set<string>)
    requires FromTree(headers) && d.Literal? && d.header in headers && d.quoted
    ensures Opened(source, d, headers) == ReadAs(d, headers) <==> !Shadowed(source, d, headers)
    ensures !Misspelt(source, d, headers)
  {
    hide AsPosix, Folder;
    assert d.header[|d.header| - 1] == 'h';
    if Folder(source) + d.header == "src/" + d.header { SamePrefix(Folder(source), "src/", d.header); }
  }

  /** A name that ends no private header is not found beside any file. */
  lemma OpensNothing(source: string, name: string, headers: set<string>)
    requires !StartsWith(name, "src/") && forall h | h in headers :: !EndsWith("src/" + h, "/" + name)
    ensures !IsPrivate(Folder(source) + name, headers)
  {
    var beside := Folder(source) + name;
    if IsPrivate(beside, headers) {
      assert beside == "src/" + beside[4..];
      EndsBeside(source, name);
      assert false;
    }
  }

  lemma SamePrefix(a: string, b: string, c: string)
    requires a + c == b + c
    ensures a == b
  {
    assert |a| == |b|;
    assert a == (a + c)[..|a|] && b == (b + c)[..|b|];
  }

  lemma {:induction false} FolderEnds(path: string)
    ensures Folder(path) == [] || Folder(path)[|Folder(path)| - 1] == '/'
  {
    if path != [] && path[|path| - 1] != '/' { FolderEnds(path[..|path| - 1]); }
  }

  lemma EndsBeside(source: string, name: string)
    requires StartsWith(Folder(source) + name, "src/") && !StartsWith(name, "src/")
    ensures EndsWith(Folder(source) + name, "/" + name)
  {
    FolderEnds(source);
    var folder := Folder(source);
    if folder != [] { assert folder + name == folder[..|folder| - 1] + ("/" + name); }
  }

  // ----- whole inventories

  predicate OpensAsRead(f: NativeFile, d: Directive, headers: set<string>) {
    Opened(f.path, d, headers) == ReadAs(d, headers)
  }

  predicate Plain(f: NativeFile, d: Directive, headers: set<string>) {
    !Misspelt(f.path, d, headers) && !Shadowed(f.path, d, headers)
  }

  lemma CleanFileOpens(f: NativeFile, d: Directive, owners: map<string, string>, components: ComponentMap, matches: Matches,
                       allowed: set<Edge>)
    requires FromTree(owners.Keys) && CleanFile(f, owners, components, matches, allowed) && d in f.directives
    ensures OpensAsRead(f, d, owners.Keys) <==> Plain(f, d, owners.Keys)
  {
    hide Permitted, Owners, FromTree, Opened, ReadAs, Misspelt, Shadowed;
    var component :| Owners(f.path, components, matches) == {component}
                     && AllPermitted(component, f.directives, owners, allowed);
    OpensWhatIsRead(f.path, component, d, owners, allowed);
  }

  /** Every directive opens the header it is read as. */
  ghost predicate ReadAsOpened(files: seq<NativeFile>, headers: set<string>) {
    forall f, d | f in files && d in f.directives :: OpensAsRead(f, d, headers)
  }

  ghost predicate PlainlyNamed(files: seq<NativeFile>, headers: set<string>) {
    forall f, d | f in files && d in f.directives :: Plain(f, d, headers)
  }

  /** In an accepted inventory the directives open what they are read as exactly when none of them spells a private
      header with empty or `.` components and none is found beside its own file first. */
  lemma ReadAsOpenedExactly(files: seq<NativeFile>, headers: set<string>, components: ComponentMap, matches: Matches,
                            allowed: set<Edge>)
    requires Inventory(files, headers, components, matches, allowed).Ok? && FromTree(headers)
    ensures ReadAsOpened(files, headers) <==> PlainlyNamed(files, headers)
  {
    var owners := AcceptedIsClean(files, headers, components, matches, allowed);
    hide *;
    CleanFilesOpen(files, owners, components, matches, allowed);
  }

  lemma AcceptedIsClean(files: seq<NativeFile>, headers: set<string>, components: ComponentMap, matches: Matches,
                        allowed: set<Edge>) returns (owners: map<string, string>)
    requires Inventory(files, headers, components, matches, allowed).Ok?
    ensures owners.Keys == headers && CleanFiles(files, owners, components, matches, allowed)
  {
    hide Inventory, CleanFiles, IncludeEdges, EdgesOf, AllJustified;
    InventoryExact(files, headers, components, matches, allowed);
    owners := HeaderOwners(headers, components, matches);
  }

  lemma CleanFilesOpen(files: seq<NativeFile>, owners: map<string, string>, components: ComponentMap, matches: Matches,
                       allowed: set<Edge>)
    requires FromTree(owners.Keys) && CleanFiles(files, owners, components, matches, allowed)
    ensures ReadAsOpened(files, owners.Keys) <==> PlainlyNamed(files, owners.Keys)
  {
    hide OpensAsRead, Plain, CleanFile, FromTree;
    forall f, d | f in files && d in f.directives
      ensures OpensAsRead(f, d, owners.Keys) <==> Plain(f, d, owners.Keys)
    {
      CleanFileOpens(f, d, owners, components, matches, allowed);
    }
  }

  /** The include graph a compiler follows among the private headers. */
  ghost function OpenedGraph(p: Project): set<Edge> {
    set f, d | f in p.files && d in f.directives && Opened(f.path, d, p.headers).Some? ::
      (f.path, Opened(f.path, d, p.headers).value)
  }

  /** One directive that opens what it is read as gives the same edge in both graphs. */
  lemma SameEdge(f: NativeFile, d: Directive, headers: set<string>, e: Edge)
    requires d in f.directives && OpensAsRead(f, d, headers)
    ensures Opened(f.path, d, headers).Some? && e == (f.path, Opened(f.path, d, headers).value) <==>
            d.Literal? && d.header in headers && e == (f.path, "src/" + d.header)
  {
    hide Opened;
  }

  lemma OpenedIsChecked(p: Project)
    requires ReadAsOpened(p.files, p.headers)
    ensures OpenedGraph(p) == Graph(p)
  {
    hide Opened, ReadAs;
    forall e
      ensures e in OpenedGraph(p) <==> e in Graph(p)
    {
      if e in OpenedGraph(p) {
        var f, d :| f in p.files && d in f.directives && Opened(f.path, d, p.headers).Some?
                    && e == (f.path, Opened(f.path, d, p.headers).value);
        SameEdge(f, d, p.headers, e);
        assert e in FileEdges(f.path, f.directives, p.headers);
      }
      if e in Graph(p) {
        var f :| f in p.files && e in FileEdges(f.path, f.directives, p.headers);
        var d :| d in f.directives && d.Literal? && d.header in p.headers && e == (f.path, "src/" + d.header);
        SameEdge(f, d, p.headers, e);
      }
    }
  }

  /** So in an accepted project of plainly named headers no cycle of headers a compiler opens leaves its group. */
  lemma OpenedCyclesStayInGroup(p: Project, sets: Sets, isGroup: Pattern, isPrefix: Pattern, matches: Matches,
                                layers: Layers, w: seq<string>)
    requires FromTree(p.headers) && PlainlyNamed(p.files, p.headers)
    ensures Accepted(p, sets, isGroup, isPrefix, matches, layers) && Cycle(w, OpenedGraph(p)) ==>
              forall k | 0 <= k < |w| :: Together(layers.groupOf, w[k], w[0])
  {
    hide Loaded, PlainlyNamed, ReadAsOpened, Cycle, Graph, OpenedGraph;
    if Accepted(p, sets, isGroup, isPrefix, matches, layers) && Cycle(w, OpenedGraph(p)) {
      ReadAsOpenedExactly(p.files, p.headers, p.components, matches, p.allowed);
      OpenedIsChecked(p);
      CyclesStayInGroup(p, sets, isGroup, isPrefix, matches, layers, w);
    }
  }
}
