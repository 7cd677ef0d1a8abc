/** The coarse native target manifest: its CMake `set` blocks and the group table they declare.

    `isGroup` and `isPrefix` stand for the name patterns of a group and of a source prefix. */
module CoreTargets {
  import opened Prelude
  import opened ManifestRows
  import opened Ordering

  datatype TargetError = NotASetBlock | DuplicateVariable | NotOneToken | Unterminated | MissingVariable | NoGroups
                       | DuplicateGroups | BadTreeSitterGroup | BadGroupName | EmptyPrefixes | NotSortedUnique
                       | BadPrefix | RepeatedPrefix | LaterDependency | UnexpectedVariable

  type Sets = map<string, seq<string>>

  datatype Group = Group(name: string, prefixes: seq<string>, dependencies: seq<string>)

  datatype Targets = Targets(groups: seq<Group>, treeSitter: string)

  const GROUPS_VARIABLE := "ARCHBIRD_DECLARED_CORE_GROUPS"
  const TREE_SITTER_VARIABLE := "ARCHBIRD_CORE_TREE_SITTER_GROUP"

  // ----- blocks of rows

  predicate IsNameChar(c: char) {
    'A' <= c <= 'Z' || 'a' <= c <= 'z' || '0' <= c <= '9' || c == '_'
  }

  /** The variable a row opens, if it is `set(NAME`. */
  function Opens(row: string): Option<string> {
    if |row| > 4 && row[..4] == "set(" && forall i | 4 <= i < |row| :: IsNameChar(row[i]) then Some(row[4..]) else None
  }

  /** `str.isspace` of one character. */
  predicate IsSpace(c: char) {
    var code := c as int;
    9 <= code <= 13 || 28 <= code <= 32 || code == 0x85 || code == 0xA0 || code == 0x1680 || 0x2000 <= code <= 0x200A
    || code == 0x2028 || code == 0x2029 || code == 0x202F || code == 0x205F || code == 0x3000
  }

  predicate OneToken(row: string) {
    forall i | 0 <= i < |row| :: !IsSpace(row[i])
  }

  /** The parser between rows: finished variables, the open one and its values so far. */
  datatype Parse = Parse(sets: Sets, active: Option<string>, values: seq<string>)

  /** One row, already stripped of surrounding space. */
  function ReadRow(p: Parse, row: string): Result<Parse, TargetError> {
    if Ignored(row) then Ok(p)
    else if p.active.None? then
      var name := Opens(row);
      if name.None? then Err(NotASetBlock)
      else if name.value in p.sets then Err(DuplicateVariable)
      else Ok(Parse(p.sets, name, []))
    else if row == ")" then Ok(Parse(p.sets[p.active.value := p.values], None, []))
    else if !OneToken(row) then Err(NotOneToken)
    else Ok(p.(values := p.values + [row]))
  }

  function ReadRows(p: Parse, rows: seq<string>): Result<Parse, TargetError>
    decreases |rows|
  {
    if rows == [] then Ok(p) else
      var next :- ReadRow(p, rows[0]);
      ReadRows(next, rows[1..])
  }

  function ParsedSets(rows: seq<string>): Result<Sets, TargetError> {
    var end :- ReadRows(Parse(map[], None, []), rows);
    if end.active.Some? then Err(Unterminated) else Ok(end.sets)
  }

  method ParseSets(rows: seq<string>) returns (r: Result<Sets, TargetError>)
    ensures r == ParsedSets(rows)
  {
    var sets: Sets, active: Option<string>, values: seq<string> := map[], None, [];
    assert rows[0..] == rows;
    for i := 0 to |rows|
      invariant ReadRows(Parse(sets, active, values), rows[i..]) == ReadRows(Parse(map[], None, []), rows)
    {
      assert rows[i..][1..] == rows[i + 1..];
      var row := rows[i];
      if Ignored(row) {
        continue;
      }
      if active.None? {
        var name := Opens(row);
        if name.None? {
          return Err(NotASetBlock);
        }
        if name.value in sets {
          return Err(DuplicateVariable);
        }
        active, values := name, [];
        continue;
      }
      if row == ")" {
        sets := sets[active.value := values];
        active, values := None, [];
        continue;
      }
      if !OneToken(row) {
        return Err(NotOneToken);
      }
      values := values + [row];
    }
    if active.Some? {
      return Err(Unterminated);
    }
    return Ok(sets);
  }

  // ----- the group table

  function PrefixVariable(name: string): string {
    "ARCHBIRD_CORE_GROUP_" + name + "_SOURCE_PREFIXES"
  }

  function DependencyVariable(name: string): string {
    "ARCHBIRD_CORE_GROUP_" + name + "_DEPENDENCIES"
  }

  /** `s == tuple(sorted(s))` and no value twice. */
  predicate SortedUnique(s: seq<string>) {
    s == Sorted(Elements(s))
  }

  lemma SortedUniqueIsAscending(s: seq<string>)
    ensures SortedUnique(s) <==> Ascending(s)
  {
    if Ascending(s) { AscendingUnique(s, Sorted(Elements(s))); }
  }

  /** The loader between groups: variables not yet used, names and prefixes seen, groups built. */
  datatype Loading = Loading(sets: Sets, processed: set<string>, prefixes: set<string>, groups: seq<Group>)

  function CheckPrefixes(prefixes: seq<string>, seen: set<string>, isPrefix: string -> bool): Result<set<string>, TargetError>
    decreases |prefixes|
  {
    if prefixes == [] then Ok(seen)
    else if !isPrefix(prefixes[0]) then Err(BadPrefix)
    else if prefixes[0] in seen then Err(RepeatedPrefix)
    else CheckPrefixes(prefixes[1..], seen + {prefixes[0]}, isPrefix)
  }

  function LoadGroup(l: Loading, name: string, isGroup: string -> bool, isPrefix: string -> bool): Result<Loading, TargetError> {
    var pv, dv := PrefixVariable(name), DependencyVariable(name);
    if !isGroup(name) then Err(BadGroupName)
    else if pv !in l.sets || dv !in l.sets - {pv} then Err(MissingVariable)
    else
      var prefixes, dependencies := l.sets[pv], l.sets[dv];
      if prefixes == [] then Err(EmptyPrefixes)
      else if !SortedUnique(prefixes) || !SortedUnique(dependencies) then Err(NotSortedUnique)
      else
        var seen :- CheckPrefixes(prefixes, l.prefixes, isPrefix);
        if exists d | d in dependencies :: d !in l.processed then Err(LaterDependency)
        else Ok(Loading(l.sets - {pv} - {dv}, l.processed + {name}, seen, l.groups + [Group(name, prefixes, dependencies)]))
  }

  function LoadGroups(l: Loading, names: seq<string>, isGroup: string -> bool, isPrefix: string -> bool)
    : Result<Loading, TargetError>
    decreases |names|
  {
    if names == [] then Ok(l) else
      var next :- LoadGroup(l, names[0], isGroup, isPrefix);
      LoadGroups(next, names[1..], isGroup, isPrefix)
  }

  /** The two variables that name the groups and the Tree-sitter group. */
  function Heading(sets: Sets): Result<(seq<string>, string), TargetError> {
    if GROUPS_VARIABLE !in sets then Err(MissingVariable)
    else if sets[GROUPS_VARIABLE] == [] then Err(NoGroups)
    else if |Elements(sets[GROUPS_VARIABLE])| != |sets[GROUPS_VARIABLE]| then Err(DuplicateGroups)
    else if TREE_SITTER_VARIABLE !in sets - {GROUPS_VARIABLE} then Err(MissingVariable)
    else if |sets[TREE_SITTER_VARIABLE]| != 1 || sets[TREE_SITTER_VARIABLE][0] !in sets[GROUPS_VARIABLE] then
      Err(BadTreeSitterGroup)
    else Ok((sets[GROUPS_VARIABLE], sets[TREE_SITTER_VARIABLE][0]))
  }

  function Loaded(sets: Sets, isGroup: string -> bool, isPrefix: string -> bool): Result<Targets, TargetError> {
    var heading :- Heading(sets);
    var start := Loading(sets - {GROUPS_VARIABLE} - {TREE_SITTER_VARIABLE}, {}, {}, []);
    var end :- LoadGroups(start, heading.0, isGroup, isPrefix);
    if end.sets != map[] then Err(UnexpectedVariable) else Ok(Targets(end.groups, heading.1))
  }

  /** The loop over the group names. */
  method LoadTargets(sets: Sets, isGroup: string -> bool, isPrefix: string -> bool) returns (r: Result<Targets, TargetError>)
    ensures r == Loaded(sets, isGroup, isPrefix)
  {
    var heading := Heading(sets);
    if heading.Err? {
      return Err(heading.error);
    }
    var names := heading.value.0;
    var state := Loading(sets - {GROUPS_VARIABLE} - {TREE_SITTER_VARIABLE}, {}, {}, []);
    ghost var whole := LoadGroups(state, names, isGroup, isPrefix);
    assert names[0..] == names;
    for i := 0 to |names|
      invariant LoadGroups(state, names[i..], isGroup, isPrefix) == whole
    {
      assert names[i..][1..] == names[i + 1..];
      var next := LoadOne(state, names[i], isGroup, isPrefix);
      if next.Err? {
        return Err(next.error);
      }
      state := next.value;
    }
    if state.sets != map[] {
      return Err(UnexpectedVariable);
    }
    return Ok(Targets(state.groups, heading.value.1));
  }

  /** One group: its two variables are taken out, its prefixes claimed and its dependencies looked up. */
  method LoadOne(l: Loading, name: string, isGroup: string -> bool, isPrefix: string -> bool)
    returns (r: Result<Loading, TargetError>)
    ensures r == LoadGroup(l, name, isGroup, isPrefix)
  {
    if !isGroup(name) {
      return Err(BadGroupName);
    }
    var pv, dv := PrefixVariable(name), DependencyVariable(name);
    if pv !in l.sets || dv !in l.sets - {pv} {
      return Err(MissingVariable);
    }
    var prefixes, dependencies := l.sets[pv], l.sets[dv];
    if prefixes == [] {
      return Err(EmptyPrefixes);
    }
    if !SortedUnique(prefixes) || !SortedUnique(dependencies) {
      return Err(NotSortedUnique);
    }
    var seen := l.prefixes;
    assert prefixes[0..] == prefixes;
    for i := 0 to |prefixes|
      invariant CheckPrefixes(prefixes[i..], seen, isPrefix) == CheckPrefixes(prefixes, l.prefixes, isPrefix)
    {
      assert prefixes[i..][1..] == prefixes[i + 1..];
      if !isPrefix(prefixes[i]) {
        return Err(BadPrefix);
      }
      if prefixes[i] in seen {
        return Err(RepeatedPrefix);
      }
      seen := seen + {prefixes[i]};
    }
    for i := 0 to |dependencies|
      invariant forall k | 0 <= k < i :: dependencies[k] in l.processed
    {
      if dependencies[i] !in l.processed {
        return Err(LaterDependency);
      }
    }
    return Ok(Loading(l.sets - {pv} - {dv}, l.processed + {name}, seen, l.groups + [Group(name, prefixes, dependencies)]));
  }

  // ----- what the loader accepts

  function Names(groups: seq<Group>): (r: seq<string>)
    ensures |r| == |groups| && forall i | 0 <= i < |r| :: r[i] == groups[i].name
  {
    seq(|groups|, i requires 0 <= i < |groups| => groups[i].name)
  }

  ghost predicate GroupLocal(g: Group, isGroup: string -> bool, isPrefix: string -> bool) {
    && isGroup(g.name) && g.prefixes != [] && Ascending(g.prefixes) && Ascending(g.dependencies)
    && forall p | p in g.prefixes :: isPrefix(p)
  }

  /** Declared dependencies-first: a group depends only on groups listed before it, and no prefix is claimed twice. */
  ghost predicate Layered(groups: seq<Group>) {
    && (forall i, d | 0 <= i < |groups| && d in groups[i].dependencies :: d in Names(groups[..i]))
    && (forall i, j | 0 <= i < j < |groups| ::
          groups[i].name != groups[j].name && forall p | p in groups[i].prefixes :: p !in groups[j].prefixes)
  }

  ghost predicate WellDeclared(t: Targets, isGroup: string -> bool, isPrefix: string -> bool) {
    && t.groups != [] && t.treeSitter in Names(t.groups)
    && (forall i | 0 <= i < |t.groups| :: GroupLocal(t.groups[i], isGroup, isPrefix))
    && Layered(t.groups)
  }
}
