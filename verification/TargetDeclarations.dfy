/** The target manifest loader accepts exactly the rendered form of well-declared group tables. */
module TargetDeclarations {
  import opened Prelude
  import opened ManifestRows
  import opened Ordering
  import opened CoreTargets

  type Pattern = string -> bool

  /** The variables a group table is written as. */
  function RenderedGroups(groups: seq<Group>): Sets {
    if groups == [] then map[] else
      RenderedGroups(groups[1..])[PrefixVariable(groups[0].name) := groups[0].prefixes]
                                 [DependencyVariable(groups[0].name) := groups[0].dependencies]
  }

  function Rendered(t: Targets): Sets {
    RenderedGroups(t.groups)[GROUPS_VARIABLE := Names(t.groups)][TREE_SITTER_VARIABLE := [t.treeSitter]]
  }

  // ----- variable names do not clash

  lemma VariablesDiffer(a: string, b: string)
    ensures a != b ==> PrefixVariable(a) != PrefixVariable(b) && DependencyVariable(a) != DependencyVariable(b)
    ensures PrefixVariable(a) != DependencyVariable(b)
    ensures PrefixVariable(a) != GROUPS_VARIABLE && PrefixVariable(a) != TREE_SITTER_VARIABLE
    ensures DependencyVariable(a) != GROUPS_VARIABLE && DependencyVariable(a) != TREE_SITTER_VARIABLE
  {
    Middle(PrefixVariable(a), a, 20, 16);
    Middle(PrefixVariable(b), b, 20, 16);
    Middle(DependencyVariable(a), a, 20, 13);
    Middle(DependencyVariable(b), b, 20, 13);
    var p, d := PrefixVariable(a), DependencyVariable(b);
    assert p[|p| - 3] == 'X' && d[|d| - 3] == 'I';
    assert PrefixVariable(a)[9] == 'C' && DependencyVariable(a)[9] == 'C' && GROUPS_VARIABLE[9] == 'D';
    assert PrefixVariable(a)[14] == 'G' && DependencyVariable(a)[14] == 'G' && TREE_SITTER_VARIABLE[14] == 'T';
  }

  /** A name sits behind its fixed prefix and before its fixed suffix. */
  lemma Middle(s: string, name: string, before: nat, after: nat)
    requires |s| == before + |name| + after
    requires s == PrefixVariable(name) || s == DependencyVariable(name)
    requires before == 20
    ensures s[before..|s| - after] == name
  {
    assert |"ARCHBIRD_CORE_GROUP_"| == 20;
  }

  predicate DistinctNames(groups: seq<Group>) {
    forall i, j | 0 <= i < j < |groups| :: groups[i].name != groups[j].name
  }

  lemma {:induction false} RenderedKeys(groups: seq<Group>, key: string)
    requires key in RenderedGroups(groups)
    ensures exists g | g in groups :: key == PrefixVariable(g.name) || key == DependencyVariable(g.name)
  {
    var g := groups[0];
    if key == PrefixVariable(g.name) || key == DependencyVariable(g.name) {
      assert g in groups;
    } else {
      RenderedKeys(groups[1..], key);
      assert forall h | h in groups[1..] :: h in groups;
    }
  }

  lemma NameNotRendered(name: string, groups: seq<Group>)
    requires forall g | g in groups :: g.name != name
    ensures PrefixVariable(name) !in RenderedGroups(groups) && DependencyVariable(name) !in RenderedGroups(groups)
  {
    forall key | key in RenderedGroups(groups)
      ensures key != PrefixVariable(name) && key != DependencyVariable(name)
    {
      RenderedKeys(groups, key);
      var g :| g in groups && (key == PrefixVariable(g.name) || key == DependencyVariable(g.name));
      VariablesDiffer(g.name, name);
      VariablesDiffer(name, g.name);
    }
  }

  lemma HeadingNotRendered(groups: seq<Group>)
    ensures GROUPS_VARIABLE !in RenderedGroups(groups) && TREE_SITTER_VARIABLE !in RenderedGroups(groups)
  {
    forall key | key in RenderedGroups(groups)
      ensures key != GROUPS_VARIABLE && key != TREE_SITTER_VARIABLE
    {
      RenderedKeys(groups, key);
      var g :| g in groups && (key == PrefixVariable(g.name) || key == DependencyVariable(g.name));
      VariablesDiffer(g.name, g.name);
    }
  }

  // ----- groups that fit behind others

  /** The groups can follow others whose names and prefixes are given. */
  ghost predicate Fit(groups: seq<Group>, processed: set<string>, prefixes: set<string>, isGroup: Pattern, isPrefix: Pattern)
    decreases |groups|
  {
    groups == [] ||
    (var g := groups[0];
     && GroupLocal(g, isGroup, isPrefix)
     && (forall d | d in g.dependencies :: d in processed)
     && (forall p | p in g.prefixes :: p !in prefixes)
     && Fit(groups[1..], processed + {g.name}, prefixes + Elements(g.prefixes), isGroup, isPrefix))
  }

  lemma {:induction false} CheckPrefixesExactly(prefixes: seq<string>, seen: set<string>, isPrefix: Pattern)
    requires forall i, j | 0 <= i < j < |prefixes| :: prefixes[i] != prefixes[j]
    ensures CheckPrefixes(prefixes, seen, isPrefix).Ok? <==> forall p | p in prefixes :: isPrefix(p) && p !in seen
    ensures CheckPrefixes(prefixes, seen, isPrefix).Ok? ==>
              CheckPrefixes(prefixes, seen, isPrefix).value == seen + Elements(prefixes)
    decreases |prefixes|
  {
    if prefixes != [] {
      var first, rest := prefixes[0], prefixes[1..];
      assert prefixes == [first] + rest;
      CheckPrefixesExactly(rest, seen + {first}, isPrefix);
      assert first !in rest;
      assert seen + Elements(prefixes) == seen + {first} + Elements(rest);
    }
  }

  /** A group that fits behind those already loaded. */
  ghost predicate FitsNext(l: Loading, g: Group, isGroup: Pattern, isPrefix: Pattern) {
    && GroupLocal(g, isGroup, isPrefix)
    && (forall d | d in g.dependencies :: d in l.processed)
    && (forall p | p in g.prefixes :: p !in l.prefixes)
  }

  /** The loader once `g` is taken. */
  ghost function Taken(l: Loading, g: Group): Loading {
    Loading(l.sets - {PrefixVariable(g.name)} - {DependencyVariable(g.name)}, l.processed + {g.name},
            l.prefixes + Elements(g.prefixes), l.groups + [g])
  }

  ghost predicate HasVariables(l: Loading, g: Group) {
    && PrefixVariable(g.name) in l.sets && DependencyVariable(g.name) in l.sets
    && g.prefixes == l.sets[PrefixVariable(g.name)] && g.dependencies == l.sets[DependencyVariable(g.name)]
  }

  lemma GroupComplete(l: Loading, g: Group, isGroup: Pattern, isPrefix: Pattern)
    requires HasVariables(l, g) && FitsNext(l, g, isGroup, isPrefix)
    ensures LoadGroup(l, g.name, isGroup, isPrefix) == Ok(Taken(l, g))
  {
    hide PrefixVariable, DependencyVariable;
    VariablesDiffer(g.name, g.name);
    SortedUniqueIsAscending(g.prefixes);
    SortedUniqueIsAscending(g.dependencies);
    CheckPrefixesExactly(g.prefixes, l.prefixes, isPrefix);
  }

  /** What an accepted group was read from, and that it fits. */
  lemma GroupSound(l: Loading, name: string, isGroup: Pattern, isPrefix: Pattern) returns (g: Group)
    requires LoadGroup(l, name, isGroup, isPrefix).Ok?
    ensures g.name == name && HasVariables(l, g) && FitsNext(l, g, isGroup, isPrefix)
    ensures LoadGroup(l, name, isGroup, isPrefix) == Ok(Taken(l, g))
  {
    hide PrefixVariable, DependencyVariable;
    g := Group(name, l.sets[PrefixVariable(name)], l.sets[DependencyVariable(name)]);
    SortedUniqueIsAscending(g.prefixes);
    SortedUniqueIsAscending(g.dependencies);
    CheckPrefixesExactly(g.prefixes, l.prefixes, isPrefix);
  }

  lemma FirstVariables(l: Loading, groups: seq<Group>)
    requires groups != [] && DistinctNames(groups) && l.sets == RenderedGroups(groups)
    ensures HasVariables(l, groups[0]) && Taken(l, groups[0]).sets == RenderedGroups(groups[1..])
  {
    hide PrefixVariable, DependencyVariable;
    NameNotRendered(groups[0].name, groups[1..]);
    VariablesDiffer(groups[0].name, groups[0].name);
  }

  lemma RenderedWithFirst(l: Loading, g: Group, rest: seq<Group>)
    requires HasVariables(l, g) && Taken(l, g).sets == RenderedGroups(rest)
    ensures l.sets == RenderedGroups([g] + rest)
  {
    hide PrefixVariable, DependencyVariable;
    VariablesDiffer(g.name, g.name);
    assert ([g] + rest)[1..] == rest;
  }

  lemma FitWithFirst(l: Loading, g: Group, rest: seq<Group>, isGroup: Pattern, isPrefix: Pattern)
    ensures Fit([g] + rest, l.processed, l.prefixes, isGroup, isPrefix) <==>
              FitsNext(l, g, isGroup, isPrefix) && Fit(rest, Taken(l, g).processed, Taken(l, g).prefixes, isGroup, isPrefix)
  {
    hide GroupLocal, PrefixVariable, DependencyVariable;
    assert ([g] + rest)[1..] == rest;
  }

  lemma NamesTail(groups: seq<Group>)
    requires groups != []
    ensures Names(groups)[0] == groups[0].name && Names(groups)[1..] == Names(groups[1..])
    ensures Names(groups) == [groups[0].name] + Names(groups[1..])
    ensures DistinctNames(groups) ==> DistinctNames(groups[1..])
  {}

  lemma TakenAppends(l: Loading, g: Group, rest: seq<Group>)
    ensures Taken(l, g).groups + rest == l.groups + ([g] + rest)
  {}

  lemma LoadStep(l: Loading, names: seq<string>, isGroup: Pattern, isPrefix: Pattern)
    requires names != []
    ensures LoadGroup(l, names[0], isGroup, isPrefix).Ok? ==>
              LoadGroups(l, names, isGroup, isPrefix)
              == LoadGroups(LoadGroup(l, names[0], isGroup, isPrefix).value, names[1..], isGroup, isPrefix)
    ensures LoadGroup(l, names[0], isGroup, isPrefix).Err? ==> LoadGroups(l, names, isGroup, isPrefix).Err?
  {
    hide LoadGroup;
  }

  lemma {:induction false} LoadComplete(l: Loading, groups: seq<Group>, isGroup: Pattern, isPrefix: Pattern)
    requires Fit(groups, l.processed, l.prefixes, isGroup, isPrefix) && DistinctNames(groups)
    requires l.sets == RenderedGroups(groups)
    ensures var end := LoadGroups(l, Names(groups), isGroup, isPrefix);
            end.Ok? && end.value.sets == map[] && end.value.groups == l.groups + groups
    decreases |groups|
  {
    if groups == [] {
      assert l.groups + groups == l.groups;
    } else {
      hide *;
      var g, rest := groups[0], groups[1..];
      assert [g] + rest == groups;
      FirstVariables(l, groups);
      FitWithFirst(l, g, rest, isGroup, isPrefix);
      GroupComplete(l, g, isGroup, isPrefix);
      NamesTail(groups);
      TakenAppends(l, g, rest);
      LoadStep(l, Names(groups), isGroup, isPrefix);
      LoadComplete(Taken(l, g), rest, isGroup, isPrefix);
    }
  }

  lemma {:induction false} LoadSound(l: Loading, names: seq<string>, isGroup: Pattern, isPrefix: Pattern) returns (groups: seq<Group>)
    requires LoadGroups(l, names, isGroup, isPrefix).Ok? && LoadGroups(l, names, isGroup, isPrefix).value.sets == map[]
    ensures Names(groups) == names && Fit(groups, l.processed, l.prefixes, isGroup, isPrefix)
    ensures l.sets == RenderedGroups(groups)
    ensures LoadGroups(l, names, isGroup, isPrefix).value.groups == l.groups + groups
    decreases |names|
  {
    if names == [] {
      groups := [];
    } else {
      LoadStep(l, names, isGroup, isPrefix);
      hide *;
      var g := GroupSound(l, names[0], isGroup, isPrefix);
      var rest := LoadSound(Taken(l, g), names[1..], isGroup, isPrefix);
      groups := [g] + rest;
      SoundWithFirst(l, g, rest, names, isGroup, isPrefix);
      TakenAppends(l, g, rest);
    }
  }

  lemma SoundWithFirst(l: Loading, g: Group, rest: seq<Group>, names: seq<string>, isGroup: Pattern, isPrefix: Pattern)
    requires names != [] && g.name == names[0] && Names(rest) == names[1..]
    requires HasVariables(l, g) && FitsNext(l, g, isGroup, isPrefix)
    requires Fit(rest, Taken(l, g).processed, Taken(l, g).prefixes, isGroup, isPrefix)
    requires Taken(l, g).sets == RenderedGroups(rest)
    ensures Names([g] + rest) == names && Fit([g] + rest, l.processed, l.prefixes, isGroup, isPrefix)
    ensures l.sets == RenderedGroups([g] + rest)
  {
    hide *;
    FitWithFirst(l, g, rest, isGroup, isPrefix);
    RenderedWithFirst(l, g, rest);
    NamesTail([g] + rest);
    assert ([g] + rest)[1..] == rest;
    assert names == [names[0]] + names[1..];
  }

  // ----- fitting is being layered

  lemma {:induction false} FitIsLayered(before: seq<Group>, groups: seq<Group>, isGroup: Pattern, isPrefix: Pattern)
    requires Fit(groups, Elements(Names(before)), PrefixesOf(before), isGroup, isPrefix)
    requires DistinctNames(before + groups)
    requires Layered(before) && forall i | 0 <= i < |before| :: GroupLocal(before[i], isGroup, isPrefix)
    ensures Layered(before + groups)
    ensures forall i | 0 <= i < |before + groups| :: GroupLocal((before + groups)[i], isGroup, isPrefix)
    decreases |groups|
  {
    if groups == [] {
      assert before + groups == before;
    } else {
      var g, rest := groups[0], groups[1..];
      var longer := before + [g];
      assert longer + rest == before + groups;
      assert DistinctNames(longer) by {
        assert forall i | 0 <= i < |longer| :: longer[i] == (before + groups)[i];
      }
      LayeredStep(before, g);
      assert Names(longer) == Names(before) + [g.name];
      assert Elements(Names(longer)) == Elements(Names(before)) + {g.name};
      PrefixesStep(before, g);
      FitIsLayered(longer, rest, isGroup, isPrefix);
    }
  }

  ghost function PrefixesOf(groups: seq<Group>): set<string> {
    set i, p | 0 <= i < |groups| && p in groups[i].prefixes :: p
  }

  lemma PrefixesStep(groups: seq<Group>, g: Group)
    ensures PrefixesOf(groups + [g]) == PrefixesOf(groups) + Elements(g.prefixes)
  {
    var longer := groups + [g];
    forall p
      ensures p in PrefixesOf(longer) <==> p in PrefixesOf(groups) || p in Elements(g.prefixes)
    {
      if p in PrefixesOf(groups) {
        var i :| 0 <= i < |groups| && p in groups[i].prefixes;
        assert longer[i] == groups[i];
      }
      if p in g.prefixes { assert p in longer[|groups|].prefixes; }
    }
  }

  lemma LayeredStep(before: seq<Group>, g: Group)
    requires Layered(before) && DistinctNames(before + [g])
    requires forall d | d in g.dependencies :: d in Names(before)
    requires forall p | p in g.prefixes :: p !in PrefixesOf(before)
    ensures Layered(before + [g])
  {
    var longer := before + [g];
    forall i, d | 0 <= i < |longer| && d in longer[i].dependencies
      ensures d in Names(longer[..i])
    {
      assert longer[..i] == before[..i];
      if i == |before| { assert before[..i] == before; }
    }
  }

  lemma {:induction false} LayeredFits(before: seq<Group>, groups: seq<Group>, isGroup: Pattern, isPrefix: Pattern)
    requires Layered(before + groups)
    requires forall i | 0 <= i < |before + groups| :: GroupLocal((before + groups)[i], isGroup, isPrefix)
    ensures Fit(groups, Elements(Names(before)), PrefixesOf(before), isGroup, isPrefix)
    decreases |groups|
  {
    if groups != [] {
      var all, g, rest := before + groups, groups[0], groups[1..];
      var longer := before + [g];
      assert longer + rest == all && all[|before|] == g && all[..|before|] == before;
      forall p | p in g.prefixes
        ensures p !in PrefixesOf(before)
      {
        assert forall i | 0 <= i < |before| :: all[i] == before[i];
      }
      assert Names(longer) == Names(before) + [g.name];
      assert Elements(Names(longer)) == Elements(Names(before)) + {g.name};
      PrefixesStep(before, g);
      LayeredFits(longer, rest, isGroup, isPrefix);
    }
  }

  // ----- the loader, exactly

  lemma NamesDistinct(groups: seq<Group>)
    ensures DistinctNames(groups) <==> |Elements(Names(groups))| == |groups|
  {
    DistinctByCount(Names(groups));
    var names := Names(groups);
    assert DistinctNames(groups) <==> forall i, j | 0 <= i < j < |names| :: names[i] != names[j];
  }

  lemma {:induction false} DistinctByCount(s: seq<string>)
    ensures |Elements(s)| <= |s|
    ensures |Elements(s)| == |s| <==> forall i, j | 0 <= i < j < |s| :: s[i] != s[j]
  {
    if s != [] {
      var init, last := s[..|s| - 1], s[|s| - 1];
      DistinctByCount(init);
      assert s == init + [last];
      assert Elements(s) == Elements(init) + {last};
      if last in init {
        var i :| 0 <= i < |init| && init[i] == last;
        assert s[i] == s[|s| - 1];
        assert Elements(s) == Elements(init);
      }
    }
  }

  /** The two heading variables, put back where they were. */
  lemma HeadingMeans(sets: Sets)
    requires Heading(sets).Ok?
    ensures var (names, treeSitter) := Heading(sets).value;
            && names != [] && |Elements(names)| == |names| && treeSitter in names
            && sets == (sets - {GROUPS_VARIABLE} - {TREE_SITTER_VARIABLE})[GROUPS_VARIABLE := names]
                                                                         [TREE_SITTER_VARIABLE := [treeSitter]]
  {
    HeadingVariablesDiffer();
    assert sets[TREE_SITTER_VARIABLE] == [sets[TREE_SITTER_VARIABLE][0]];
  }

  lemma HeadingVariablesDiffer()
    ensures GROUPS_VARIABLE != TREE_SITTER_VARIABLE
  {
    assert GROUPS_VARIABLE[9] == 'D' && TREE_SITTER_VARIABLE[9] == 'C';
  }

  /** Soundness: an accepted manifest is the rendering of a well-declared, layered table. */
  lemma LoadedIsWellDeclared(sets: Sets, isGroup: Pattern, isPrefix: Pattern)
    requires Loaded(sets, isGroup, isPrefix).Ok?
    ensures var t := Loaded(sets, isGroup, isPrefix).value;
            WellDeclared(t, isGroup, isPrefix) && sets == Rendered(t)
  {
    hide GroupLocal, Layered, RenderedGroups;
    HeadingMeans(sets);
    var start := Loading(sets - {GROUPS_VARIABLE} - {TREE_SITTER_VARIABLE}, {}, {}, []);
    var groups := LoadSound(start, Heading(sets).value.0, isGroup, isPrefix);
    assert [] + groups == groups;
    NamesDistinct(groups);
    FitAlone(groups, isGroup, isPrefix);
  }

  lemma FitAlone(groups: seq<Group>, isGroup: Pattern, isPrefix: Pattern)
    requires DistinctNames(groups)
    ensures Fit(groups, {}, {}, isGroup, isPrefix) <==>
              Layered(groups) && forall i | 0 <= i < |groups| :: GroupLocal(groups[i], isGroup, isPrefix)
  {
    hide GroupLocal;
    assert Elements(Names([])) == {} && PrefixesOf([]) == {} && [] + groups == groups;
    if Fit(groups, {}, {}, isGroup, isPrefix) { FitIsLayered([], groups, isGroup, isPrefix); }
    if Layered(groups) && forall i | 0 <= i < |groups| :: GroupLocal(groups[i], isGroup, isPrefix) {
      LayeredFits([], groups, isGroup, isPrefix);
    }
  }

  /** Completeness: the rendering of every well-declared table is accepted and read back. */
  lemma WellDeclaredIsLoaded(t: Targets, isGroup: Pattern, isPrefix: Pattern)
    requires WellDeclared(t, isGroup, isPrefix)
    ensures Loaded(Rendered(t), isGroup, isPrefix) == Ok(t)
  {
    hide GroupLocal;
    HeadingOfRendered(t);
    NamesDistinct(t.groups);
    FitAlone(t.groups, isGroup, isPrefix);
    LoadComplete(Loading(RenderedGroups(t.groups), {}, {}, []), t.groups, isGroup, isPrefix);
    assert [] + t.groups == t.groups;
  }

  lemma HeadingOfRendered(t: Targets)
    requires t.groups != [] && t.treeSitter in Names(t.groups) && DistinctNames(t.groups)
    ensures Heading(Rendered(t)) == Ok((Names(t.groups), t.treeSitter))
    ensures Rendered(t) - {GROUPS_VARIABLE} - {TREE_SITTER_VARIABLE} == RenderedGroups(t.groups)
  {
    hide RenderedGroups;
    HeadingVariablesDiffer();
    HeadingNotRendered(t.groups);
    NamesDistinct(t.groups);
  }

  /** The loader returns `t` exactly for the rendering of a well-declared `t`. */
  lemma LoaderAcceptsExactly(sets: Sets, t: Targets, isGroup: Pattern, isPrefix: Pattern)
    ensures Loaded(sets, isGroup, isPrefix) == Ok(t) <==> WellDeclared(t, isGroup, isPrefix) && sets == Rendered(t)
  {
    if Loaded(sets, isGroup, isPrefix) == Ok(t) { LoadedIsWellDeclared(sets, isGroup, isPrefix); }
    if WellDeclared(t, isGroup, isPrefix) { WellDeclaredIsLoaded(t, isGroup, isPrefix); }
  }

  // ----- the block syntax

  datatype Block = Block(name: string, values: seq<string>)

  /** The rows a list of blocks is written as. */
  function RowsOf(blocks: seq<Block>): seq<string> {
    if blocks == [] then [] else ["set(" + blocks[0].name] + (blocks[0].values + ([")"] + RowsOf(blocks[1..])))
  }

  predicate IsValue(row: string) {
    !Ignored(row) && row != ")" && OneToken(row)
  }

  predicate IsBlock(b: Block) {
    b.name != "" && (forall i | 0 <= i < |b.name| :: IsNameChar(b.name[i])) && forall v | v in b.values :: IsValue(v)
  }

  function SetsOf(sets: Sets, blocks: seq<Block>): Sets
    decreases |blocks|
  {
    if blocks == [] then sets else SetsOf(sets[blocks[0].name := blocks[0].values], blocks[1..])
  }

  lemma ReadStep(p: Parse, row: string, rest: seq<string>)
    requires ReadRow(p, row).Ok?
    ensures ReadRows(p, [row] + rest) == ReadRows(ReadRow(p, row).value, rest)
  {
    hide ReadRow;
    assert ([row] + rest)[1..] == rest;
  }

  lemma {:induction false} ReadValues(p: Parse, values: seq<string>, rest: seq<string>)
    requires p.active.Some? && forall v | v in values :: IsValue(v)
    ensures ReadRows(p, values + rest) == ReadRows(p.(values := p.values + values), rest)
    decreases |values|
  {
    if values == [] {
      assert values + rest == rest && p.values + values == p.values;
    } else {
      assert values + rest == [values[0]] + (values[1..] + rest);
      assert values[0] in values && forall v | v in values[1..] :: v in values;
      ReadStep(p, values[0], values[1..] + rest);
      ReadValues(p.(values := p.values + [values[0]]), values[1..], rest);
      assert p.values + [values[0]] + values[1..] == p.values + values;
    }
  }

  lemma OpensBlock(name: string)
    requires name != "" && forall i | 0 <= i < |name| :: IsNameChar(name[i])
    ensures Opens("set(" + name) == Some(name) && !Ignored("set(" + name)
  {
    var row := "set(" + name;
    assert row[..4] == "set(" && row[4..] == name;
    assert forall i | 4 <= i < |row| :: row[i] == name[i - 4];
  }

  lemma {:induction false} ReadBlocks(sets: Sets, blocks: seq<Block>)
    requires forall b | b in blocks :: IsBlock(b) && b.name !in sets
    requires forall i, j | 0 <= i < j < |blocks| :: blocks[i].name != blocks[j].name
    ensures ReadRows(Parse(sets, None, []), RowsOf(blocks)) == Ok(Parse(SetsOf(sets, blocks), None, []))
    decreases |blocks|
  {
    if blocks != [] {
      var b, rest := blocks[0], blocks[1..];
      assert b in blocks && forall c | c in rest :: c in blocks;
      OpensBlock(b.name);
      var closing := [")"] + RowsOf(rest);
      ReadStep(Parse(sets, None, []), "set(" + b.name, b.values + closing);
      ReadValues(Parse(sets, Some(b.name), []), b.values, closing);
      assert [] + b.values == b.values;
      ReadStep(Parse(sets, Some(b.name), b.values), ")", RowsOf(rest));
      ReadBlocks(sets[b.name := b.values], rest);
    }
  }

  /** Writing blocks with distinct names and one-token values as rows and parsing the rows gives their table. */
  lemma ParseInvertsRendering(blocks: seq<Block>)
    requires forall b | b in blocks :: IsBlock(b)
    requires forall i, j | 0 <= i < j < |blocks| :: blocks[i].name != blocks[j].name
    ensures ParsedSets(RowsOf(blocks)) == Ok(SetsOf(map[], blocks))
  {
    ReadBlocks(map[], blocks);
  }

  // ----- nothing else parses

  lemma {:induction false} IgnoredRowsVanish(p: Parse, rows: seq<string>)
    ensures ReadRows(p, rows) == ReadRows(p, Significant(rows))
    decreases |rows|
  {
    if rows != [] {
      if Ignored(rows[0]) {
        IgnoredRowsVanish(p, rows[1..]);
        assert Significant(rows) == [] + Significant(rows[1..]) == Significant(rows[1..]);
      } else {
        var rest := Significant(rows[1..]);
        assert Significant(rows) == [rows[0]] + rest && ([rows[0]] + rest)[1..] == rest;
        assert ([rows[0]] + rest)[0] == rows[0];
        if ReadRow(p, rows[0]).Ok? { IgnoredRowsVanish(ReadRow(p, rows[0]).value, rows[1..]); }
      }
    }
  }

  ghost predicate AllSignificant(rows: seq<string>) {
    forall row | row in rows :: !Ignored(row)
  }

  /** A finished parse of the rows: accepted, with no block left open. */
  ghost predicate Finishes(p: Parse, rows: seq<string>) {
    ReadRows(p, rows).Ok? && ReadRows(p, rows).value.active.None?
  }

  /** Inside a block, rows that finish begin with its remaining values and the closing row. */
  lemma {:induction false} OpenBlockCloses(p: Parse, rows: seq<string>) returns (values: seq<string>, rest: seq<string>)
    requires p.active.Some? && AllSignificant(rows) && Finishes(p, rows)
    ensures rows == values + ([")"] + rest) && AllSignificant(rest)
    ensures forall v | v in values :: IsValue(v)
    ensures ReadRows(p, rows) == ReadRows(Parse(p.sets[p.active.value := p.values + values], None, []), rest)
    decreases |rows|
  {
    var row, tail := rows[0], rows[1..];
    assert row in rows && forall x | x in tail :: x in rows;
    assert rows == [row] + tail;
    if row == ")" {
      values, rest := [], tail;
      assert p.values + values == p.values;
    } else {
      var more;
      more, rest := OpenBlockCloses(p.(values := p.values + [row]), tail);
      values := [row] + more;
      assert p.values + [row] + more == p.values + values;
      assert rows == values + ([")"] + rest);
    }
  }

  /** A list of well-formed blocks with distinct names, none of them yet in the table. */
  ghost predicate AreBlocks(sets: Sets, blocks: seq<Block>) {
    && (forall i | 0 <= i < |blocks| :: IsBlock(blocks[i]) && blocks[i].name !in sets)
    && forall i, j | 0 <= i < j < |blocks| :: blocks[i].name != blocks[j].name
  }

  lemma OpensName(row: string)
    requires Opens(row).Some?
    ensures row == "set(" + Opens(row).value && Opens(row).value != ""
    ensures forall i | 0 <= i < |Opens(row).value| :: IsNameChar(Opens(row).value[i])
  {}

  lemma FirstBlock(sets: Sets, first: Block, rest: seq<Block>)
    requires IsBlock(first) && first.name !in sets && AreBlocks(sets[first.name := first.values], rest)
    ensures AreBlocks(sets, [first] + rest)
    ensures SetsOf(sets, [first] + rest) == SetsOf(sets[first.name := first.values], rest)
    ensures RowsOf([first] + rest) == ["set(" + first.name] + (first.values + ([")"] + RowsOf(rest)))
  {
    hide IsBlock;
    var blocks := [first] + rest;
    assert blocks[1..] == rest && blocks[0] == first;
    forall i | 0 <= i < |blocks|
      ensures IsBlock(blocks[i]) && blocks[i].name !in sets
    {
      if i > 0 { assert blocks[i] == rest[i - 1]; }
    }
    forall i, j | 0 <= i < j < |blocks|
      ensures blocks[i].name != blocks[j].name
    {
      assert blocks[j] == rest[j - 1];
      if i > 0 { assert blocks[i] == rest[i - 1]; }
    }
  }

  /** Between blocks, rows that finish are the rows of a list of blocks. */
  lemma {:induction false} FinishedAreBlocks(sets: Sets, rows: seq<string>) returns (blocks: seq<Block>)
    requires AllSignificant(rows) && Finishes(Parse(sets, None, []), rows)
    ensures AreBlocks(sets, blocks) && rows == RowsOf(blocks)
    ensures ReadRows(Parse(sets, None, []), rows).value.sets == SetsOf(sets, blocks)
    decreases |rows|
  {
    if rows == [] {
      blocks := [];
    } else {
      var row, tail := rows[0], rows[1..];
      assert row in rows && forall x | x in tail :: x in rows;
      OpensName(row);
      var name := Opens(row).value;
      var values, rest := OpenBlockCloses(Parse(sets, Some(name), []), tail);
      assert [] + values == values && rows == [row] + tail;
      hide ReadRow, Opens, AreBlocks, IsValue;
      var more := FinishedAreBlocks(sets[name := values], rest);
      FirstBlock(sets, Block(name, values), more);
      blocks := [Block(name, values)] + more;
    }
  }

  /** Rows parse to a table exactly when, comments aside, they are the rows of well-formed blocks with distinct names,
      and the table is theirs. */
  lemma ParsesExactly(rows: seq<string>, sets: Sets)
    ensures ParsedSets(rows) == Ok(sets) <==>
              exists blocks :: AreBlocks(map[], blocks) && Significant(rows) == RowsOf(blocks) && sets == SetsOf(map[], blocks)
  {
    IgnoredRowsVanish(Parse(map[], None, []), rows);
    SignificantRows(rows);
    if ParsedSets(rows) == Ok(sets) {
      var blocks := FinishedAreBlocks(map[], Significant(rows));
      assert AreBlocks(map[], blocks);
    }
    if blocks :| AreBlocks(map[], blocks) && Significant(rows) == RowsOf(blocks) && sets == SetsOf(map[], blocks) {
      ReadBlocks(map[], blocks);
    }
  }
}
