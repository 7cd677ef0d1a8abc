/** Relative POSIX paths as `PurePosixPath` reads them: empty and `.` components vanish, `..` stays. */
module PosixPath {
  import opened Prelude

  datatype PathError = UnsafePath

  predicate NoSlash(s: string) {
    forall i | 0 <= i < |s| :: s[i] != '/'
  }

  /** The text between slashes. */
  function Split(s: string): (r: seq<string>)
    ensures r != []
    ensures forall i | 0 <= i < |r| :: NoSlash(r[i])
  {
    if s == [] then [[]]
    else if s[0] == '/' then [[]] + Split(s[1..])
    else
      var r := Split(s[1..]);
      [[s[0]] + r[0]] + r[1..]
  }

  function Join(parts: seq<string>): string {
    if parts == [] then []
    else if |parts| == 1 then parts[0]
    else parts[0] + "/" + Join(parts[1..])
  }

  predicate IsComponent(part: string) {
    part != [] && part != "."
  }

  function KeepComponents(parts: seq<string>): (r: seq<string>)
    ensures forall i | 0 <= i < |r| :: IsComponent(r[i]) && r[i] in parts
  {
    if parts == [] then []
    else if IsComponent(parts[0]) then [parts[0]] + KeepComponents(parts[1..])
    else KeepComponents(parts[1..])
  }

  /** `path.parts` of a relative path. */
  function Components(s: string): (r: seq<string>)
    ensures forall i | 0 <= i < |r| :: IsComponent(r[i]) && NoSlash(r[i])
  {
    KeepComponents(Split(s))
  }

  predicate IsAbsolute(s: string) {
    s != [] && s[0] == '/'
  }

  /** `path.as_posix()` of a relative path. */
  function AsPosix(s: string): string {
    if Components(s) == [] then "." else Join(Components(s))
  }

  /** The bundle's path check: the normalised path, or a refusal. */
  function SafePath(value: string): Result<string, PathError> {
    if value == [] || IsAbsolute(value) || ".." in Components(value) || "." in Components(value) || '\\' in value then
      Err(UnsafePath)
    else Ok(AsPosix(value))
  }

  // ----- normalising is idempotent

  lemma {:induction false} SplitAfterSlash(part: string, rest: string)
    requires NoSlash(part)
    ensures Split(part + "/" + rest) == [part] + Split(rest)
  {
    var s := part + "/" + rest;
    if part == [] {
      assert s == "/" + rest && s[1..] == rest;
    } else {
      SplitAfterSlash(part[1..], rest);
      assert s[1..] == part[1..] + "/" + rest;
      assert part == [part[0]] + part[1..];
    }
  }

  lemma {:induction false} SplitWhole(part: string)
    requires NoSlash(part)
    ensures Split(part) == [part]
  {
    if part != [] {
      SplitWhole(part[1..]);
      assert part == [part[0]] + part[1..];
    }
  }

  lemma {:induction false} SplitJoin(parts: seq<string>)
    requires parts != [] && forall i | 0 <= i < |parts| :: NoSlash(parts[i])
    ensures Split(Join(parts)) == parts
  {
    if |parts| == 1 {
      SplitWhole(parts[0]);
      assert parts == [parts[0]];
    } else {
      SplitJoin(parts[1..]);
      SplitAfterSlash(parts[0], Join(parts[1..]));
      assert parts == [parts[0]] + parts[1..];
    }
  }

  lemma {:induction false} KeepAll(parts: seq<string>)
    requires forall i | 0 <= i < |parts| :: IsComponent(parts[i])
    ensures KeepComponents(parts) == parts
  {
    if parts != [] {
      KeepAll(parts[1..]);
      assert parts == [parts[0]] + parts[1..];
    }
  }

  /** A normalised path has the components it was normalised from. */
  lemma ComponentsOfNormal(s: string)
    ensures Components(AsPosix(s)) == Components(s)
    ensures AsPosix(AsPosix(s)) == AsPosix(s)
  {
    if Components(s) == [] {
      SplitWhole(".");
      assert KeepComponents(["."]) == [];
    } else {
      SplitJoin(Components(s));
      KeepAll(Components(s));
    }
  }

  lemma {:induction false} JoinCharacters(parts: seq<string>, c: char)
    requires c != '/' && forall i | 0 <= i < |parts| :: c !in parts[i]
    ensures c !in Join(parts)
  {
    if |parts| > 1 {
      JoinCharacters(parts[1..], c);
    }
  }

  lemma {:induction false} SplitCharacters(s: string, c: char)
    requires c !in s
    ensures forall i | 0 <= i < |Split(s)| :: c !in Split(s)[i]
  {
    if s != [] {
      assert s == [s[0]] + s[1..];
      SplitCharacters(s[1..], c);
    }
  }

  lemma JoinStart(parts: seq<string>)
    requires parts != [] && parts[0] != []
    ensures Join(parts) != [] && Join(parts)[0] == parts[0][0]
  {}

  /** What the check returns passes the check unchanged, so reading a written path gives it back. */
  lemma SafePathStable(value: string)
    requires SafePath(value).Ok?
    ensures SafePath(SafePath(value).value) == SafePath(value)
  {
    var normal := AsPosix(value);
    ComponentsOfNormal(value);
    var parts := Components(value);
    if parts != [] {
      assert IsComponent(parts[0]) && NoSlash(parts[0]);
      JoinStart(parts);
      SplitCharacters(value, '\\');
      forall i | 0 <= i < |parts|
        ensures '\\' !in parts[i]
      {
        assert parts[i] in Split(value);
      }
      JoinCharacters(parts, '\\');
    }
  }

  // ----- the path check, on the text between slashes

  /** `kept` are the parts that are neither empty nor `.`, in order. */
  ghost predicate KeepsNamed(parts: seq<string>, kept: seq<string>) {
    if parts == [] then kept == []
    else if parts[0] == "" || parts[0] == "." then KeepsNamed(parts[1..], kept)
    else kept != [] && kept[0] == parts[0] && KeepsNamed(parts[1..], kept[1..])
  }

  lemma {:induction false} KeptNamed(parts: seq<string>)
    ensures KeepsNamed(parts, KeepComponents(parts))
    ensures ".." in KeepComponents(parts) <==> ".." in parts
    ensures "." !in KeepComponents(parts)
  {
    if parts != [] {
      KeptNamed(parts[1..]);
      assert parts == [parts[0]] + parts[1..];
    }
  }

  /** A path written as parts between slashes is refused exactly when it is empty or absolute, has a part `..`, or holds a
      backslash; otherwise it becomes its named parts, joined again, or `.` when there are none. */
  lemma SafePathExactly(parts: seq<string>) returns (kept: seq<string>)
    requires parts != [] && forall i | 0 <= i < |parts| :: NoSlash(parts[i])
    ensures KeepsNamed(parts, kept)
    ensures SafePath(Join(parts))
            == if Join(parts) == "" || Join(parts)[0] == '/' || ".." in parts || '\\' in Join(parts) then Err(UnsafePath)
               else Ok(if kept == [] then "." else Join(kept))
  {
    SplitJoin(parts);
    KeptNamed(parts);
    kept := KeepComponents(parts);
    hide Split, KeepComponents, Join;
  }
}
