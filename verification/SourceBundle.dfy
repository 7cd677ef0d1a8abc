/** The npm source bundle before compression: magic, 8-byte big-endian header length, JSON row table, joined content.

    `hash` stands for the hexadecimal SHA-256 and `loads` for `json.loads`; `LoadsReadsRows` shows that the concrete
    reader of module JsonText is such a `loads`. */
module SourceBundle {
  import opened Prelude
  import opened Ordering
  import opened PosixPath
  import opened JsonText

  const ARTIFACT := "archbird-c-source-bundle"
  const MAGIC_TEXT := "ARCHBIRD_CSRC_BUNDLE_V1\n"
  const MAGIC: Bytes := ToBytes(MAGIC_TEXT)
  const PREFIX: nat := 24 + 8
  const LENGTH_LIMIT: nat := 0x1_0000_0000_0000_0000

  type Files = map<string, Bytes>

  datatype Row = Row(path: string, offset: int, length: int, sha256: string)

  datatype BundleError = UnsafeMember | HeaderTooLong | BadSignature | TruncatedHeader | BadHeader | UnknownArtifact
                       | BadInventory | BadRow | BadOrdering | TruncatedMember | DigestDiffers | TrailingContent

  // ----- header length

  function BigEndian(n: nat, width: nat): (r: Bytes)
    ensures |r| == width
  {
    if width == 0 then [] else BigEndian(n / 256, width - 1) + [n % 256]
  }

  function FromBigEndian(b: Bytes): nat {
    if b == [] then 0 else FromBigEndian(b[..|b| - 1]) * 256 + b[|b| - 1]
  }

  function Pow256(width: nat): nat {
    if width == 0 then 1 else 256 * Pow256(width - 1)
  }

  lemma {:induction false} BigEndianInverse(n: nat, width: nat)
    requires n < Pow256(width)
    ensures FromBigEndian(BigEndian(n, width)) == n
  {
    if width > 0 {
      BigEndianInverse(n / 256, width - 1);
    }
  }

  lemma EightBytes()
    ensures Pow256(8) == LENGTH_LIMIT
  {
    assert Pow256(2) == 65536 && Pow256(4) == 256 * (256 * Pow256(2)) && Pow256(6) == 256 * (256 * Pow256(4));
  }

  // ----- row table

  function RowJson(row: Row): Json {
    Object([Member("bytes", Number(row.length)), Member("offset", Number(row.offset)),
            Member("path", Text(row.path)), Member("sha256", Text(row.sha256))])
  }

  function RowsJson(rows: seq<Row>): (r: seq<Json>)
    ensures |r| == |rows| && forall i | 0 <= i < |r| :: r[i] == RowJson(rows[i])
  {
    seq(|rows|, i requires 0 <= i < |rows| => RowJson(rows[i]))
  }

  /** The header document; its members and those of its rows are in key order. */
  function HeaderJson(rows: seq<Row>): Json {
    Object([Member("artifact", Text(ARTIFACT)), Member("files", List(RowsJson(rows)))])
  }

  /** The value of a key; of repeated keys the last one counts. */
  function Get(members: seq<Member>, key: string): Option<Json> {
    if members == [] then None
    else if members[|members| - 1].key == key then Some(members[|members| - 1].value)
    else Get(members[..|members| - 1], key)
  }

  /** Python counts `true` and `false` as the integers one and zero. */
  function AsInt(j: Option<Json>): Option<int> {
    match j
    case Some(Number(n)) => Some(n)
    case Some(Bool(b)) => Some(if b then 1 else 0)
    case _ => None
  }

  function AsText(j: Option<Json>): Option<string> {
    if j.Some? && j.value.Text? then Some(j.value.s) else None
  }

  function ReadRow(j: Json): Option<Row> {
    if !j.Object? then None else
      var path, offset := AsText(Get(j.members, "path")), AsInt(Get(j.members, "offset"));
      var length, sha256 := AsInt(Get(j.members, "bytes")), AsText(Get(j.members, "sha256"));
      if path.None? || offset.None? || length.None? || sha256.None? then None
      else Some(Row(path.value, offset.value, length.value, sha256.value))
  }

  /** Looking up in a list of at most four members. */
  lemma GetAmongFour(a: Member, b: Member, c: Member, d: Member, key: string)
    ensures Get([a, b], key) == if b.key == key then Some(b.value) else if a.key == key then Some(a.value) else None
    ensures Get([a, b, c, d], key) ==
            if d.key == key then Some(d.value) else if c.key == key then Some(c.value) else Get([a, b], key)
  {
    assert Get([], key) == None;
    assert [a, b, c, d][..3] == [a, b, c] && [a, b, c][..2] == [a, b] && [a, b][..1] == [a] && [a][..0] == [];
  }

  lemma ReadRowJson(row: Row)
    ensures ReadRow(RowJson(row)) == Some(row)
  {
    var a, b := Member("bytes", Number(row.length)), Member("offset", Number(row.offset));
    var c, d := Member("path", Text(row.path)), Member("sha256", Text(row.sha256));
    GetAmongFour(a, b, c, d, "bytes");
    GetAmongFour(a, b, c, d, "offset");
    GetAmongFour(a, b, c, d, "path");
    GetAmongFour(a, b, c, d, "sha256");
    assert |"bytes"| == 5 && |"offset"| == 6 && |"path"| == 4 && |"sha256"| == 6;
    assert "sha256"[0] == 's' && "offset"[0] == 'o';
  }

  lemma ReadHeaderJson(rows: seq<Row>)
    ensures Get(HeaderJson(rows).members, "artifact") == Some(Text(ARTIFACT))
    ensures Get(HeaderJson(rows).members, "files") == Some(List(RowsJson(rows)))
  {
    var a, f := Member("artifact", Text(ARTIFACT)), Member("files", List(RowsJson(rows)));
    GetAmongFour(a, f, a, f, "artifact");
    GetAmongFour(a, f, a, f, "files");
    assert |"artifact"| == 8 && |"files"| == 5;
  }

  // ----- writing

  /** The members' bytes, joined in the given order. */
  function ContentOf(keys: seq<string>, files: Files): Bytes
    requires forall i | 0 <= i < |keys| :: keys[i] in files
  {
    if keys == [] then [] else ContentOf(keys[..|keys| - 1], files) + files[keys[|keys| - 1]]
  }

  lemma ContentStep(keys: seq<string>, files: Files, i: nat)
    requires i < |keys| && forall i | 0 <= i < |keys| :: keys[i] in files
    ensures ContentOf(keys[..i + 1], files) == ContentOf(keys[..i], files) + files[keys[i]]
  {
    assert keys[..i + 1][..i] == keys[..i];
  }

  ghost function RowsOf(keys: seq<string>, files: Files, hash: Bytes -> string): (r: seq<Row>)
    requires forall i | 0 <= i < |keys| :: keys[i] in files
    ensures |r| == |keys|
    ensures forall i | 0 <= i < |keys| :: r[i] == RowAt(keys, files, hash, i)
  {
    seq(|keys|, i requires 0 <= i < |keys| => RowAt(keys, files, hash, i))
  }

  ghost function RowAt(keys: seq<string>, files: Files, hash: Bytes -> string, i: nat): Row
    requires forall i | 0 <= i < |keys| :: keys[i] in files
    requires i < |keys|
  {
    Row(AsPosix(keys[i]), |ContentOf(keys[..i], files)|, |files[keys[i]]|, hash(files[keys[i]]))
  }

  /** The table of the first `n` members is complete. */
  ghost predicate FirstRows(rows: seq<Row>, keys: seq<string>, files: Files, hash: Bytes -> string, n: nat)
    requires forall i | 0 <= i < |keys| :: keys[i] in files
    requires n <= |keys|
  {
    |rows| == n && forall k | 0 <= k < n :: rows[k] == RowAt(keys, files, hash, k)
  }

  lemma NextRow(rows: seq<Row>, keys: seq<string>, files: Files, hash: Bytes -> string, n: nat)
    requires forall i | 0 <= i < |keys| :: keys[i] in files
    requires n < |keys| && FirstRows(rows, keys, files, hash, n)
    ensures FirstRows(rows + [RowAt(keys, files, hash, n)], keys, files, hash, n + 1)
  {}

  lemma NothingLaid(keys: seq<string>, files: Files, hash: Bytes -> string)
    requires forall i | 0 <= i < |keys| :: keys[i] in files
    ensures FirstRows([], keys, files, hash, 0) && ContentOf(keys[..0], files) == []
  {}

  lemma RowsComplete(rows: seq<Row>, keys: seq<string>, files: Files, hash: Bytes -> string)
    requires forall i | 0 <= i < |keys| :: keys[i] in files
    requires FirstRows(rows, keys, files, hash, |keys|)
    ensures rows == RowsOf(keys, files, hash)
  {
    hide RowAt;
  }

  ghost predicate AllSafe(files: Files) {
    forall k | k in files :: SafePath(k).Ok?
  }

  lemma SortedKeys(files: Files)
    ensures forall i | 0 <= i < |Sorted(files.Keys)| :: Sorted(files.Keys)[i] in files
    ensures forall k | k in files :: k in Sorted(files.Keys)
    ensures Ascending(Sorted(files.Keys))
  {
    var keys := Sorted(files.Keys);
    forall i | 0 <= i < |keys|
      ensures keys[i] in files
    {
      assert keys[i] in Elements(keys);
    }
    forall k | k in files
      ensures k in keys
    {
      assert k in Elements(keys);
    }
  }

  /** The payload for a set of members, described by row and by position. */
  ghost function Payload(files: Files, hash: Bytes -> string): Bytes
    requires HeaderLength(files, hash) < LENGTH_LIMIT
  {
    SortedKeys(files);
    var keys := Sorted(files.Keys);
    var header := Dumps(HeaderJson(RowsOf(keys, files, hash)));
    MAGIC + BigEndian(|header|, 8) + header + ContentOf(keys, files)
  }

  ghost function HeaderLength(files: Files, hash: Bytes -> string): nat {
    SortedKeys(files);
    |Dumps(HeaderJson(RowsOf(Sorted(files.Keys), files, hash)))|
  }

  /** The loop over the sorted members: rows and content grow together. */
  method LayOut(keys: seq<string>, files: Files, hash: Bytes -> string)
    returns (safe: bool, rows: seq<Row>, content: Bytes)
    requires forall i | 0 <= i < |keys| :: keys[i] in files
    ensures safe <==> forall k | 0 <= k < |keys| :: SafePath(keys[k]).Ok?
    ensures safe ==> rows == RowsOf(keys, files, hash) && content == ContentOf(keys, files)
  {
    hide AsPosix, Components, ContentOf, FirstRows;
    rows, content := [], [];
    NothingLaid(keys, files, hash);
    for i := 0 to |keys|
      invariant forall k | 0 <= k < i :: SafePath(keys[k]).Ok?
      invariant content == ContentOf(keys[..i], files)
      invariant FirstRows(rows, keys, files, hash, i)
    {
      var path := SafePath(keys[i]);
      if path.Err? {
        return false, [], [];
      }
      var data := files[keys[i]];
      NextRow(rows, keys, files, hash, i);
      rows := rows + [Row(path.value, |content|, |data|, hash(data))];
      content := content + data;
      ContentStep(keys, files, i);
    }
    assert keys[..|keys|] == keys;
    RowsComplete(rows, keys, files, hash);
    safe := true;
  }

  method EncodeBundle(files: Files, hash: Bytes -> string) returns (r: Result<Bytes, BundleError>)
    ensures !AllSafe(files) ==> r == Err(UnsafeMember)
    ensures AllSafe(files) && HeaderLength(files, hash) >= LENGTH_LIMIT ==> r == Err(HeaderTooLong)
    ensures AllSafe(files) && HeaderLength(files, hash) < LENGTH_LIMIT ==> r == Ok(Payload(files, hash))
  {
    SortedKeys(files);
    var safe, rows, content := LayOut(Sorted(files.Keys), files, hash);
    if !safe {
      return Err(UnsafeMember);
    }
    var header := Dumps(HeaderJson(rows));
    if |header| >= LENGTH_LIMIT {
      return Err(HeaderTooLong);
    }
    return Ok(MAGIC + BigEndian(|header|, 8) + header + content);
  }

  // ----- reading

  /** The reader's variables between rows. */
  datatype Progress = Progress(result: Files, expectedOffset: nat)

  /** Checks one row against the content and takes its member. */
  function Place(p: Progress, row: Row, content: Bytes, hash: Bytes -> string): Result<Progress, BundleError> {
    var path := SafePath(row.path);
    if path.Err? then Err(UnsafeMember)
    else if path.value in p.result || row.offset != p.expectedOffset || row.length < 0 then Err(BadOrdering)
    else
      var end := p.expectedOffset + row.length;
      if end > |content| then Err(TruncatedMember)
      else if hash(content[p.expectedOffset..end]) != row.sha256 then Err(DigestDiffers)
      else Ok(Progress(p.result[path.value := content[p.expectedOffset..end]], end))
  }

  function AcceptRow(p: Progress, j: Json, content: Bytes, hash: Bytes -> string): Result<Progress, BundleError> {
    var row := ReadRow(j);
    if row.None? then Err(BadRow) else Place(p, row.value, content, hash)
  }

  function AcceptRows(p: Progress, items: seq<Json>, content: Bytes, hash: Bytes -> string)
    : Result<Progress, BundleError>
    decreases |items|
  {
    if items == [] then Ok(p) else
      var next :- AcceptRow(p, items[0], content, hash);
      AcceptRows(next, items[1..], content, hash)
  }

  /** The inventory and the content of a payload whose frame and header are acceptable. */
  datatype Frame = Frame(items: seq<Json>, content: Bytes)

  function HeaderEnd(payload: Bytes): nat
    requires |payload| >= PREFIX
  {
    PREFIX + FromBigEndian(payload[24..PREFIX])
  }

  function ReadFrame(payload: Bytes, loads: Bytes -> Option<Json>): Result<Frame, BundleError> {
    if |payload| < PREFIX || !(MAGIC <= payload) then Err(BadSignature)
    else if HeaderEnd(payload) > |payload| then Err(TruncatedHeader)
    else
      match loads(payload[PREFIX..HeaderEnd(payload)])
      case None => Err(BadHeader)
      case Some(header) =>
        if !header.Object? || Get(header.members, "artifact") != Some(Text(ARTIFACT)) then Err(UnknownArtifact) else
          match Get(header.members, "files")
          case Some(List(items)) => Ok(Frame(items, payload[HeaderEnd(payload)..]))
          case _ => Err(BadInventory)
  }

  function Decoded(payload: Bytes, hash: Bytes -> string, loads: Bytes -> Option<Json>): Result<Files, BundleError> {
    var frame :- ReadFrame(payload, loads);
    DecodedFrame(frame, hash)
  }

  function DecodedFrame(frame: Frame, hash: Bytes -> string): Result<Files, BundleError> {
    var end :- AcceptRows(Progress(map[], 0), frame.items, frame.content, hash);
    if end.expectedOffset != |frame.content| then Err(TrailingContent) else Ok(end.result)
  }

  method DecodeBundle(payload: Bytes, hash: Bytes -> string, loads: Bytes -> Option<Json>)
    returns (r: Result<Files, BundleError>)
    ensures r == Decoded(payload, hash, loads)
  {
    var frame := ReadFrame(payload, loads);
    if frame.Err? {
      return Err(frame.error);
    }
    var items, content := frame.value.items, frame.value.content;
    var progress := Progress(map[], 0);
    ghost var whole := AcceptRows(progress, items, content, hash);
    assert items[0..] == items;
    for i := 0 to |items|
      invariant AcceptRows(progress, items[i..], content, hash) == whole
    {
      assert items[i..][1..] == items[i + 1..];
      var next := AcceptRow(progress, items[i], content, hash);
      if next.Err? {
        return Err(next.error);
      }
      progress := next.value;
    }
    if progress.expectedOffset != |content| {
      return Err(TrailingContent);
    }
    return Ok(progress.result);
  }
}
