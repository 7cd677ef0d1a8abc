/** The reader accepts exactly the payloads of a grammar: signature, length, header, and rows that tile the content. */
module BundleGrammar {
  import opened Prelude
  import opened Ordering
  import opened PosixPath
  import opened JsonText
  import opened SourceBundle
  import opened BundleRoundTrip
  import opened BundleText

  // ----- the frame

  /** Reading a length field and writing it again gives the field back. */
  lemma {:induction false} FieldInverse(b: Bytes)
    ensures FromBigEndian(b) < Pow256(|b|) && BigEndian(FromBigEndian(b), |b|) == b
  {
    if b != [] {
      var n := |b| - 1;
      FieldInverse(b[..n]);
      var high := FromBigEndian(b[..n]);
      assert (high * 256 + b[n]) / 256 == high && (high * 256 + b[n]) % 256 == b[n];
      assert b == b[..n] + [b[n]];
    }
  }

  lemma SignatureBytes()
    ensures MAGIC == [65, 82, 67, 72, 66, 73, 82, 68, 95, 67, 83, 82, 67, 95, 66, 85, 78, 68, 76, 69, 95, 86, 49, 10]
    ensures |MAGIC| == 24
  {}

  lemma FrameParts(header: Bytes, content: Bytes)
    requires |header| < LENGTH_LIMIT
    ensures var payload := MAGIC + BigEndian(|header|, 8) + header + content;
            && |payload| >= PREFIX && MAGIC <= payload && HeaderEnd(payload) == PREFIX + |header| <= |payload|
            && payload[PREFIX..HeaderEnd(payload)] == header && payload[HeaderEnd(payload)..] == content
  {
    SignatureBytes();
    EightBytes();
    BigEndianInverse(|header|, 8);
    var field := BigEndian(|header|, 8);
    var payload := MAGIC + field + header + content;
    assert payload[24..PREFIX] == field;
  }

  /** The frame is read exactly from the payloads of this form. */
  lemma FrameExactly(payload: Bytes, loads: Bytes -> Option<Json>, items: seq<Json>, content: Bytes)
    ensures ReadFrame(payload, loads) == Ok(Frame(items, content)) <==> IsFrame(payload, loads, items, content)
  {
    SignatureBytes();
    EightBytes();
    if ReadFrame(payload, loads) == Ok(Frame(items, content)) {
      var field, header := payload[24..PREFIX], payload[PREFIX..HeaderEnd(payload)];
      var members := loads(header).value.members;
      FieldInverse(field);
      GetMeans(members, "artifact", Some(Text("archbird-c-source-bundle")));
      GetMeans(members, "files", Some(List(items)));
      assert payload == payload[..24] + field + header + content;
      assert payload[..24] == MAGIC;
    }
    hide BigEndian, FromBigEndian, MAGIC, LastValue, Get;
    if IsFrame(payload, loads, items, content) {
      FrameRead(payload, loads, items, content);
    }
  }

  lemma FrameRead(payload: Bytes, loads: Bytes -> Option<Json>, items: seq<Json>, content: Bytes)
    requires IsFrame(payload, loads, items, content)
    ensures ReadFrame(payload, loads) == Ok(Frame(items, content))
  {
    SignatureBytes();
    var header, members: seq<Member> :|
      && |header| < LENGTH_LIMIT
      && payload == [65, 82, 67, 72, 66, 73, 82, 68, 95, 67, 83, 82, 67, 95, 66, 85, 78, 68, 76, 69, 95, 86, 49, 10]
                    + BigEndian(|header|, 8) + header + content
      && loads(header) == Some(Object(members))
      && LastValue(members, "artifact", Some(Text("archbird-c-source-bundle"))) && LastValue(members, "files", Some(List(items)));
    FrameParts(header, content);
    GetMeans(members, "artifact", Some(Text("archbird-c-source-bundle")));
    GetMeans(members, "files", Some(List(items)));
    hide BigEndian, FromBigEndian, MAGIC, LastValue, Get;
  }

  // ----- the rows

  /** Each item is read as its row. */
  ghost predicate AreRows(items: seq<Json>, rows: seq<Row>) {
    |rows| == |items| && forall i | 0 <= i < |items| :: IsRow(items[i], rows[i])
  }

  lemma RowsAreRead(items: seq<Json>, rows: seq<Row>)
    ensures AreRows(items, rows) <==> (forall i | 0 <= i < |items| :: ReadRow(items[i]).Some?) && rows == RowsRead(items)
  {
    hide IsRow;
    forall i, row | 0 <= i < |items|
      ensures ReadRow(items[i]) == Some(row) <==> IsRow(items[i], row)
    {
      ReadRowExactly(items[i], row);
    }
    if AreRows(items, rows) {
      forall i | 0 <= i < |items|
        ensures ReadRow(items[i]) == Some(rows[i])
      {
        assert IsRow(items[i], rows[i]);
      }
      assert rows == RowsRead(items);
    }
    if (forall i | 0 <= i < |items| :: ReadRow(items[i]).Some?) && rows == RowsRead(items) {
      forall i | 0 <= i < |items|
        ensures IsRow(items[i], rows[i])
      {
        assert ReadRow(items[i]) == Some(rows[i]);
      }
    }
  }

  predicate Sized(row: Row, content: Bytes) {
    SafePath(row.path).Ok? && 0 <= row.offset && 0 <= row.length && row.offset + row.length <= |content|
  }

  /** The table with the member of one more row. */
  function WithMember(files: Files, row: Row, content: Bytes): Files {
    if Sized(row, content) then files[SafePath(row.path).value := content[row.offset..row.offset + row.length]] else files
  }

  /** The members of the first `n` rows. */
  ghost function MembersOf(rows: seq<Row>, content: Bytes, n: nat): Files
    requires n <= |rows|
  {
    if n == 0 then map[] else WithMember(MembersOf(rows, content, n - 1), rows[n - 1], content)
  }

  lemma RowSized(rows: seq<Row>, content: Bytes, end: nat, result: Files, hash: Bytes -> string, i: nat)
    requires Tiles(rows, content, end, result, hash) && i < |rows|
    ensures Sized(rows[i], content) && rows[i].offset == Total(rows[..i])
    ensures var path := SafePath(rows[i].path).value;
            path in result && result[path] == content[rows[i].offset..rows[i].offset + rows[i].length]
    ensures hash(content[rows[i].offset..rows[i].offset + rows[i].length]) == rows[i].sha256
  {
    hide SafePath;
    assert RowInPlace(rows, content, result, hash, i);
  }

  /** One of the first `n` rows names `path`. */
  ghost predicate NamedBefore(rows: seq<Row>, n: nat, path: string)
    requires n <= |rows|
  {
    exists i :: 0 <= i < n && SafePath(rows[i].path) == Ok(path)
  }

  lemma NamedNext(rows: seq<Row>, n: nat, path: string)
    requires n < |rows|
    ensures NamedBefore(rows, n + 1, path) <==> NamedBefore(rows, n, path) || SafePath(rows[n].path) == Ok(path)
  {
    hide SafePath;
  }

  lemma {:induction false} MembersNamed(rows: seq<Row>, content: Bytes, n: nat)
    requires n <= |rows| && forall i | 0 <= i < n :: Sized(rows[i], content)
    ensures forall p :: p in MembersOf(rows, content, n) <==> NamedBefore(rows, n, p)
  {
    if n > 0 {
      MembersNamed(rows, content, n - 1);
      hide SafePath, NamedBefore;
      forall p
        ensures p in MembersOf(rows, content, n) <==> NamedBefore(rows, n, p)
      {
        NamedNext(rows, n - 1, p);
      }
    }
  }

  lemma {:induction false} MembersAmong(rows: seq<Row>, content: Bytes, end: nat, result: Files, hash: Bytes -> string, n: nat)
    requires Tiles(rows, content, end, result, hash) && n <= |rows|
    ensures forall p | p in MembersOf(rows, content, n) :: p in result && result[p] == MembersOf(rows, content, n)[p]
  {
    hide SafePath, Tiles, MembersOf, WithMember;
    NoMembers(rows, content);
    if n > 0 {
      MembersAmong(rows, content, end, result, hash, n - 1);
      RowSized(rows, content, end, result, hash, n - 1);
      AmongStep(rows, content, n, result);
    }
  }

  lemma NoMembers(rows: seq<Row>, content: Bytes)
    ensures MembersOf(rows, content, 0) == map[]
  {}

  lemma AmongStep(rows: seq<Row>, content: Bytes, n: nat, result: Files)
    requires 0 < n <= |rows| && Sized(rows[n - 1], content)
    requires forall p | p in MembersOf(rows, content, n - 1) :: p in result && result[p] == MembersOf(rows, content, n - 1)[p]
    requires var row := rows[n - 1];
             SafePath(row.path).value in result
             && result[SafePath(row.path).value] == content[row.offset..row.offset + row.length]
    ensures forall p | p in MembersOf(rows, content, n) :: p in result && result[p] == MembersOf(rows, content, n)[p]
  {
    hide SafePath;
  }

  lemma MembersHeld(rows: seq<Row>, content: Bytes, end: nat, result: Files, hash: Bytes -> string, n: nat)
    requires Tiles(rows, content, end, result, hash) && n <= |rows|
    ensures forall p | p in MembersOf(rows, content, n) :: p in result && result[p] == MembersOf(rows, content, n)[p]
    ensures forall p :: p in MembersOf(rows, content, n) <==> NamedBefore(rows, n, p)
  {
    forall i | 0 <= i < n
      ensures Sized(rows[i], content)
    {
      RowSized(rows, content, end, result, hash, i);
    }
    MembersNamed(rows, content, n);
    MembersAmong(rows, content, end, result, hash, n);
    hide Tiles, MembersOf, NamedBefore, Sized;
  }

  lemma RowAccepted(rows: seq<Row>, content: Bytes, end: nat, result: Files, hash: Bytes -> string, n: nat)
    requires Tiles(rows, content, end, result, hash) && n < |rows|
    ensures 0 <= Total(rows[..n]) && 0 <= rows[n].length
    ensures Place(Progress(MembersOf(rows, content, n), Total(rows[..n])), rows[n], content, hash)
            == Ok(Progress(MembersOf(rows, content, n + 1), Total(rows[..n]) + rows[n].length))
  {
    RowSized(rows, content, end, result, hash, n);
    MembersHeld(rows, content, end, result, hash, n);
    NotYet(rows, content, end, result, hash, n);
    hide Tiles, SafePath;
  }

  lemma NotYet(rows: seq<Row>, content: Bytes, end: nat, result: Files, hash: Bytes -> string, n: nat)
    requires Tiles(rows, content, end, result, hash) && n < |rows|
    ensures forall i | 0 <= i < n :: SafePath(rows[i].path) != SafePath(rows[n].path)
  {
    hide SafePath, RowInPlace;
  }

  lemma {:induction false} TilesAccepted(rows: seq<Row>, items: seq<Json>, content: Bytes, end: nat, result: Files,
                                         hash: Bytes -> string, n: nat)
    requires Tiles(rows, content, end, result, hash) && AreRows(items, rows) && n <= |rows|
    ensures 0 <= Total(rows[..n])
    ensures AcceptRows(Progress(MembersOf(rows, content, n), Total(rows[..n])), items[n..], content, hash)
            == Ok(Progress(MembersOf(rows, content, |rows|), end))
    decreases |rows| - n
  {
    hide SafePath, IsRow, ReadRow, Place, Tiles, AreRows, MembersOf;
    JoinedIsContent(rows, content, end, result, hash, n);
    if n == |rows| {
      assert rows[..n] == rows;
      WholeTiled(rows, items, content, end, result, hash);
    } else {
      RowItem(items, rows, n);
      assert items[n..][1..] == items[n + 1..] && rows[..n + 1][..n] == rows[..n];
      RowAccepted(rows, content, end, result, hash, n);
      TilesAccepted(rows, items, content, end, result, hash, n + 1);
    }
  }

  lemma WholeTiled(rows: seq<Row>, items: seq<Json>, content: Bytes, end: nat, result: Files, hash: Bytes -> string)
    requires Tiles(rows, content, end, result, hash) && AreRows(items, rows)
    ensures end == Total(rows) && |items| == |rows|
  {}

  lemma RowItem(items: seq<Json>, rows: seq<Row>, n: nat)
    requires AreRows(items, rows) && n < |rows|
    ensures |items| == |rows| && ReadRow(items[n]) == Some(rows[n])
  {
    assert IsRow(items[n], rows[n]);
    ReadRowExactly(items[n], rows[n]);
  }

  /** A payload decodes to a table exactly when it has the frame, each item of its header is a row, and the rows cut the
      whole content into consecutive verified members with distinct safe paths, which are the table. */
  lemma DecodesExactly(payload: Bytes, hash: Bytes -> string, loads: Bytes -> Option<Json>, result: Files)
    ensures Decoded(payload, hash, loads) == Ok(result) <==>
              exists items, content, rows ::
                IsFrame(payload, loads, items, content) && AreRows(items, rows) && Tiles(rows, content, |content|, result, hash)
  {
    hide IsFrame, AreRows, Tiles, AcceptRows;
    if Decoded(payload, hash, loads) == Ok(result) {
      DecodedIsTiling(payload, hash, loads);
      var frame := ReadFrame(payload, loads).value;
      FrameExactly(payload, loads, frame.items, frame.content);
      RowsAreRead(frame.items, RowsRead(frame.items));
    }
    if items, content, rows :| IsFrame(payload, loads, items, content) && AreRows(items, rows)
                               && Tiles(rows, content, |content|, result, hash) {
      FrameExactly(payload, loads, items, content);
      FrameDecoded(items, content, rows, result, hash);
    }
  }

  lemma FrameDecoded(items: seq<Json>, content: Bytes, rows: seq<Row>, result: Files, hash: Bytes -> string)
    requires AreRows(items, rows) && Tiles(rows, content, |content|, result, hash)
    ensures DecodedFrame(Frame(items, content), hash) == Ok(result)
  {
    TilesAccepted(rows, items, content, |content|, result, hash, 0);
    assert items[0..] == items && rows[..0] == [];
    AllMembers(rows, content, |content|, result, hash);
    hide Tiles, AreRows, AcceptRows;
  }

  lemma AllMembers(rows: seq<Row>, content: Bytes, end: nat, result: Files, hash: Bytes -> string)
    requires Tiles(rows, content, end, result, hash)
    ensures MembersOf(rows, content, |rows|) == result
  {
    MembersHeld(rows, content, end, result, hash, |rows|);
    var members := MembersOf(rows, content, |rows|);
    hide SafePath, MembersOf, RowInPlace;
    forall p | p in result
      ensures p in members
    {
      assert Describes(rows, p);
      var i :| 0 <= i < |rows| && SafePath(rows[i].path) == Ok(p);
    }
    assert members.Keys == result.Keys;
  }
}
