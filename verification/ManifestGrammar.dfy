/** The texts and variables both CMake manifests accept, told on the rows themselves. */
module ManifestGrammar {
  import opened Prelude
  import opened Ordering
  import opened ManifestRows
  import opened CoreTargets
  import opened TargetDeclarations
  import opened NativeIncludes
  import Sources = SourceManifest

  /** `kept` are the rows that are neither empty nor start with `#`, in order. */
  ghost predicate Strips(rows: seq<string>, kept: seq<string>) {
    if rows == [] then kept == []
    else if rows[0] == "" || rows[0][0] == '#' then Strips(rows[1..], kept)
    else kept != [] && kept[0] == rows[0] && Strips(rows[1..], kept[1..])
  }

  lemma {:induction false} StripsExactly(rows: seq<string>, kept: seq<string>)
    ensures Strips(rows, kept) <==> kept == Significant(rows)
  {
    if rows != [] {
      if rows[0] == "" || rows[0][0] == '#' {
        StripsExactly(rows[1..], kept);
        assert [] + Significant(rows[1..]) == Significant(rows[1..]);
      } else {
        if kept != [] { StripsExactly(rows[1..], kept[1..]); }
        var rest := Significant(rows[1..]);
        assert Significant(rows) == [rows[0]] + rest && ([rows[0]] + rest)[1..] == rest;
        assert kept != [] ==> kept == [kept[0]] + kept[1..];
      }
    }
  }

  // ----- the source manifest

  /** A row that can stand for a path. */
  predicate IsEntry(row: string) {
    row != "" && row[0] != '#' && row != ")"
  }

  /** The source manifest loads exactly when, empty rows and comments aside, it is one block of its variable, listing existing
      legal paths in strictly ascending order. */
  lemma SourcesLoadExactly(rows: seq<string>, paths: seq<string>, isSource: string -> bool, isFile: string -> bool)
    ensures Sources.LoadedManifest(rows, isSource, isFile) == Ok(paths) <==>
              && Strips(rows, ["set(ARCHBIRD_DECLARED_CORE_SOURCE_PATHS"] + (paths + [")"]))
              && paths != [] && Ascending(paths) && forall p | p in paths :: IsEntry(p) && isSource(p) && isFile(p)
  {
    Sources.LoadsExactly(rows, paths, isSource, isFile);
    StripsExactly(rows, ["set(ARCHBIRD_DECLARED_CORE_SOURCE_PATHS"] + (paths + [")"]));
    hide Significant, Strips, Ascending;
  }

  /** It is valid exactly when it lists all sources of the tree in ascending order, each legal and with one owner; the entries
      are then these paths with their owners. */
  lemma SourcesValidateExactly(rows: seq<string>, actual: set<string>, isSource: string -> bool, components: ComponentMap,
                               matches: Matches)
    ensures var r := Sources.ValidatedManifest(rows, actual, isSource, components, matches);
            && (r.Ok? <==>
                && actual != {} && Strips(rows, ["set(ARCHBIRD_DECLARED_CORE_SOURCE_PATHS"] + (Sorted(actual) + [")"]))
                && forall p | p in actual :: IsEntry(p) && isSource(p) && |Owners(p, components, matches)| == 1)
            && (r.Ok? ==>
                && |r.value| == |Sorted(actual)|
                && forall k | 0 <= k < |r.value| ::
                     r.value[k].path == Sorted(actual)[k] && Owners(r.value[k].path, components, matches) == {r.value[k].component})
  {
    Sources.ValidatesExactly(rows, actual, isSource, components, matches);
    StripsExactly(rows, ["set(ARCHBIRD_DECLARED_CORE_SOURCE_PATHS"] + (Sorted(actual) + [")"]));
    hide Significant, Strips, Sorted, Owners, Sources.ValidatedManifest;
  }

  // ----- the target manifest

  predicate IsWordChar(c: char) {
    'A' <= c <= 'Z' || 'a' <= c <= 'z' || '0' <= c <= '9' || c == '_'
  }

  /** Space, tabs, line ends, separators and the other blanks of Unicode. */
  predicate IsBlank(c: char) {
    c == ' ' || 9 <= c as int <= 13 || 28 <= c as int <= 31 || c as int in {0x85, 0xA0, 0x1680, 0x2028, 0x2029, 0x202F, 0x205F, 0x3000}
    || 0x2000 <= c as int <= 0x200A
  }

  /** A block's name is one word, its values are tokens without blanks. */
  ghost predicate BlockFits(b: Block) {
    && b.name != "" && (forall i | 0 <= i < |b.name| :: IsWordChar(b.name[i]))
    && forall v | v in b.values :: IsEntry(v) && forall i | 0 <= i < |v| :: !IsBlank(v[i])
  }

  /** The table holds the values of each block under its name, and nothing else. */
  ghost predicate Tabulates(sets: Sets, blocks: seq<Block>) {
    && (forall name :: name in sets <==> exists i :: 0 <= i < |blocks| && blocks[i].name == name)
    && forall i | 0 <= i < |blocks| :: blocks[i].name in sets && sets[blocks[i].name] == blocks[i].values
  }

  /** The rows of the blocks: an opening row, the values, a closing row. */
  ghost predicate Spells(rows: seq<string>, blocks: seq<Block>)
    decreases |blocks|
  {
    if blocks == [] then rows == []
    else
      exists rest :: rows == ["set(" + blocks[0].name] + (blocks[0].values + ([")"] + rest)) && Spells(rest, blocks[1..])
  }

  lemma {:induction false} RowsSpell(rows: seq<string>, blocks: seq<Block>)
    ensures Spells(rows, blocks) <==> rows == RowsOf(blocks)
    decreases |blocks|
  {
    if blocks != [] {
      RowsSpell(RowsOf(blocks[1..]), blocks[1..]);
      if Spells(rows, blocks) {
        var rest :| rows == ["set(" + blocks[0].name] + (blocks[0].values + ([")"] + rest)) && Spells(rest, blocks[1..]);
        RowsSpell(rest, blocks[1..]);
      }
    }
  }

  lemma BlockMeans(b: Block)
    ensures IsBlock(b) <==> BlockFits(b)
  {
    forall c: char
      ensures IsNameChar(c) <==> IsWordChar(c)
      ensures IsSpace(c) <==> IsBlank(c)
    {}
  }

  ghost predicate DistinctBlocks(blocks: seq<Block>) {
    forall i, j | 0 <= i < j < |blocks| :: blocks[i].name != blocks[j].name
  }

  lemma {:induction false} TableOf(sets: Sets, blocks: seq<Block>)
    requires DistinctBlocks(blocks)
    ensures var t := SetsOf(sets, blocks);
            && (forall name :: name in t <==> name in sets || exists i :: 0 <= i < |blocks| && blocks[i].name == name)
            && (forall i | 0 <= i < |blocks| :: blocks[i].name in t && t[blocks[i].name] == blocks[i].values)
            && (forall name | name in sets && (forall i | 0 <= i < |blocks| :: blocks[i].name != name) :: t[name] == sets[name])
    decreases |blocks|
  {
    if blocks != [] {
      var first, rest := blocks[0], blocks[1..];
      assert blocks == [first] + rest;
      forall i, j | 0 <= i < j < |rest|
        ensures rest[i].name != rest[j].name
      {
        assert rest[i] == blocks[i + 1] && rest[j] == blocks[j + 1];
      }
      forall i | 0 <= i < |rest|
        ensures rest[i].name != first.name
      {
        assert blocks[0].name != blocks[i + 1].name;
      }
      TableOf(sets[first.name := first.values], rest);
      var t := SetsOf(sets, blocks);
      assert t == SetsOf(sets[first.name := first.values], rest);
      assert t[first.name] == first.values;
      forall i | 0 <= i < |blocks|
        ensures blocks[i].name in t && t[blocks[i].name] == blocks[i].values
      {
        if i > 0 { assert blocks[i] == rest[i - 1]; }
      }
      forall name
        ensures name in t <==> name in sets || exists i :: 0 <= i < |blocks| && blocks[i].name == name
      {
        if i :| 0 <= i < |rest| && rest[i].name == name { assert blocks[i + 1].name == name; }
        if i :| 0 <= i < |blocks| && blocks[i].name == name {
          if i > 0 { assert rest[i - 1].name == name; }
        }
      }
    }
  }

  lemma TableMeans(sets: Sets, blocks: seq<Block>)
    requires DistinctBlocks(blocks)
    ensures Tabulates(sets, blocks) <==> sets == SetsOf(map[], blocks)
  {
    TableOf(map[], blocks);
    var t := SetsOf(map[], blocks);
    if Tabulates(sets, blocks) {
      assert sets.Keys == t.Keys by {
        forall name ensures name in sets.Keys <==> name in t.Keys {}
      }
      forall name | name in sets
        ensures sets[name] == t[name]
      {
        var i :| 0 <= i < |blocks| && blocks[i].name == name;
      }
      assert sets == t;
    }
  }

  /** The target manifest parses to a table exactly when, empty rows and comments aside, its rows spell out blocks with
      distinct one-word names and blank-free values, and the table holds exactly these. */
  lemma SetsParseExactly(rows: seq<string>, sets: Sets)
    ensures ParsedSets(rows) == Ok(sets) <==>
              exists blocks, kept ::
                && Strips(rows, kept) && Spells(kept, blocks) && (forall i | 0 <= i < |blocks| :: BlockFits(blocks[i]))
                && DistinctBlocks(blocks) && Tabulates(sets, blocks)
  {
    ParsesExactly(rows, sets);
    StripsExactly(rows, Significant(rows));
    hide ParsedSets, Strips, Significant, Spells, BlockFits, IsBlock, Tabulates, SetsOf, RowsOf;
    if ParsedSets(rows) == Ok(sets) {
      var blocks :| AreBlocks(map[], blocks) && Significant(rows) == RowsOf(blocks) && sets == SetsOf(map[], blocks);
      RowsSpell(Significant(rows), blocks);
      BlocksMean(blocks);
      TableMeans(sets, blocks);
    }
    if blocks, kept :| Strips(rows, kept) && Spells(kept, blocks) && (forall i | 0 <= i < |blocks| :: BlockFits(blocks[i]))
                       && DistinctBlocks(blocks) && Tabulates(sets, blocks) {
      StripsExactly(rows, kept);
      RowsSpell(kept, blocks);
      BlocksMean(blocks);
      TableMeans(sets, blocks);
    }
  }

  lemma BlocksMean(blocks: seq<Block>)
    ensures AreBlocks(map[], blocks) <==> (forall i | 0 <= i < |blocks| :: BlockFits(blocks[i])) && DistinctBlocks(blocks)
  {
    forall i | 0 <= i < |blocks|
      ensures IsBlock(blocks[i]) <==> BlockFits(blocks[i])
    {
      BlockMeans(blocks[i]);
    }
    hide IsBlock, BlockFits;
  }

  // ----- the group table

  /** One key of a rendered table. */
  ghost predicate IsVariable(t: Targets, key: string) {
    || key == "ARCHBIRD_DECLARED_CORE_GROUPS" || key == "ARCHBIRD_CORE_TREE_SITTER_GROUP"
    || exists g | g in t.groups ::
         key == "ARCHBIRD_CORE_GROUP_" + g.name + "_SOURCE_PREFIXES" || key == "ARCHBIRD_CORE_GROUP_" + g.name + "_DEPENDENCIES"
  }

  /** The variables of a group table: the group names, the Tree-sitter group, and two for each group. */
  ghost predicate Declares(sets: Sets, t: Targets) {
    && (forall key :: key in sets <==> IsVariable(t, key))
    && |sets["ARCHBIRD_DECLARED_CORE_GROUPS"]| == |t.groups|
    && (forall i | 0 <= i < |t.groups| :: sets["ARCHBIRD_DECLARED_CORE_GROUPS"][i] == t.groups[i].name)
    && sets["ARCHBIRD_CORE_TREE_SITTER_GROUP"] == [t.treeSitter]
    && forall g | g in t.groups ::
         sets["ARCHBIRD_CORE_GROUP_" + g.name + "_SOURCE_PREFIXES"] == g.prefixes
         && sets["ARCHBIRD_CORE_GROUP_" + g.name + "_DEPENDENCIES"] == g.dependencies
  }

  lemma {:induction false} GroupVariable(groups: seq<Group>, i: nat)
    requires DistinctNames(groups) && i < |groups|
    ensures PrefixVariable(groups[i].name) in RenderedGroups(groups) && DependencyVariable(groups[i].name) in RenderedGroups(groups)
    ensures RenderedGroups(groups)[PrefixVariable(groups[i].name)] == groups[i].prefixes
    ensures RenderedGroups(groups)[DependencyVariable(groups[i].name)] == groups[i].dependencies
  {
    hide PrefixVariable, DependencyVariable;
    var first, rest := groups[0], groups[1..];
    VariablesDiffer(first.name, groups[i].name);
    VariablesDiffer(groups[i].name, first.name);
    if i > 0 {
      assert groups[i] == rest[i - 1] && first.name != groups[i].name;
      RestDistinct(groups);
      GroupVariable(rest, i - 1);
    }
  }

  lemma RestDistinct(groups: seq<Group>)
    requires DistinctNames(groups) && groups != []
    ensures DistinctNames(groups[1..])
  {
    forall i, j | 0 <= i < j < |groups| - 1
      ensures groups[1..][i].name != groups[1..][j].name
    {
      assert groups[1..][i] == groups[i + 1] && groups[1..][j] == groups[j + 1];
    }
  }

  lemma VariableTexts(name: string)
    ensures PrefixVariable(name) == "ARCHBIRD_CORE_GROUP_" + name + "_SOURCE_PREFIXES"
    ensures DependencyVariable(name) == "ARCHBIRD_CORE_GROUP_" + name + "_DEPENDENCIES"
  {}

  lemma RenderedHolds(t: Targets)
    requires DistinctNames(t.groups)
    ensures forall key :: key in Rendered(t) <==> IsVariable(t, key)
    ensures forall g | g in t.groups ::
              var prefixes, dependencies := "ARCHBIRD_CORE_GROUP_" + g.name + "_SOURCE_PREFIXES",
                                            "ARCHBIRD_CORE_GROUP_" + g.name + "_DEPENDENCIES";
              && prefixes in Rendered(t) && Rendered(t)[prefixes] == g.prefixes
              && dependencies in Rendered(t) && Rendered(t)[dependencies] == g.dependencies
  {
    forall g | g in t.groups
      ensures PrefixVariable(g.name) in RenderedGroups(t.groups) && DependencyVariable(g.name) in RenderedGroups(t.groups)
      ensures Rendered(t)[PrefixVariable(g.name)] == g.prefixes && Rendered(t)[DependencyVariable(g.name)] == g.dependencies
      ensures PrefixVariable(g.name) == "ARCHBIRD_CORE_GROUP_" + g.name + "_SOURCE_PREFIXES"
      ensures DependencyVariable(g.name) == "ARCHBIRD_CORE_GROUP_" + g.name + "_DEPENDENCIES"
    {
      var i :| 0 <= i < |t.groups| && t.groups[i] == g;
      GroupVariable(t.groups, i);
      VariablesDiffer(g.name, g.name);
      VariableTexts(g.name);
    }
    hide PrefixVariable, DependencyVariable, RenderedGroups;
    forall key
      ensures key in Rendered(t) <==> IsVariable(t, key)
    {
      if key in RenderedGroups(t.groups) { RenderedKeys(t.groups, key); }
    }
  }

  lemma DeclaresMeans(sets: Sets, t: Targets)
    requires DistinctNames(t.groups)
    ensures Declares(sets, t) <==> sets == Rendered(t)
  {
    RenderedHolds(t);
    HeadingNotRendered(t.groups);
    HeadingNames(t);
    hide Rendered, IsVariable;
    if Declares(sets, t) { SameTable(sets, Rendered(t), t); }
  }

  lemma HeadingNames(t: Targets)
    ensures Rendered(t)["ARCHBIRD_DECLARED_CORE_GROUPS"] == Names(t.groups)
    ensures Rendered(t)["ARCHBIRD_CORE_TREE_SITTER_GROUP"] == [t.treeSitter]
  {
    HeadingVariablesDiffer();
    assert GROUPS_VARIABLE == "ARCHBIRD_DECLARED_CORE_GROUPS" && TREE_SITTER_VARIABLE == "ARCHBIRD_CORE_TREE_SITTER_GROUP";
  }

  lemma SameTable(a: Sets, b: Sets, t: Targets)
    requires Declares(a, t) && Declares(b, t)
    ensures a == b
  {
    assert a["ARCHBIRD_DECLARED_CORE_GROUPS"] == b["ARCHBIRD_DECLARED_CORE_GROUPS"];
    assert a.Keys == b.Keys by {
      forall key ensures key in a.Keys <==> key in b.Keys { assert key in a <==> IsVariable(t, key); }
    }
    forall key | key in a
      ensures a[key] == b[key]
    {
      assert IsVariable(t, key);
    }
  }

  /** The loader returns a table exactly for the variables that declare it, by name, when it is well declared. */
  lemma TableLoadsExactly(sets: Sets, t: Targets, isGroup: Pattern, isPrefix: Pattern)
    ensures Loaded(sets, isGroup, isPrefix) == Ok(t) <==> WellDeclared(t, isGroup, isPrefix) && Declares(sets, t)
  {
    LoaderAcceptsExactly(sets, t, isGroup, isPrefix);
    hide Loaded, Declares, Rendered;
    if WellDeclared(t, isGroup, isPrefix) {
      assert DistinctNames(t.groups);
      DeclaresMeans(sets, t);
    }
  }
}
