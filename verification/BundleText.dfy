/** The bytes of a bundle: its signature, its length field, and the text of its header, sorted by key and without spaces. */
module BundleText {
  import opened Prelude
  import opened Ordering
  import opened PosixPath
  import opened JsonText
  import opened SourceBundle

  // ----- the length field

  /** The first byte is the most significant: it alone says between which multiples of 256^(width - 1) the number lies. */
  lemma {:induction false} LeadingByte(n: nat, width: nat)
    requires width > 0 && n < Pow256(width)
    ensures var first := BigEndian(n, width)[0]; first * Pow256(width - 1) <= n < (first + 1) * Pow256(width - 1)
  {
    if width > 1 {
      LeadingByte(n / 256, width - 1);
      var first, weight := BigEndian(n / 256, width - 1)[0], Pow256(width - 2);
      assert BigEndian(n, width)[0] == first;
      Scaled(n, first, weight);
    }
  }

  lemma Scaled(n: nat, first: nat, weight: nat)
    requires first * weight <= n / 256 < (first + 1) * weight
    ensures first * (256 * weight) <= n < (first + 1) * (256 * weight)
  {
    assert first * (256 * weight) == 256 * (first * weight);
    assert (first + 1) * (256 * weight) == 256 * ((first + 1) * weight);
  }

  /** A payload is the signature line, eight bytes of header length, the header and the joined content. */
  lemma PayloadFrame(files: Files, hash: Bytes -> string)
    requires HeaderLength(files, hash) < LENGTH_LIMIT
    ensures (SortedKeys(files);
             var keys := Sorted(files.Keys);
             var header := Dumps(HeaderJson(RowsOf(keys, files, hash)));
             && Payload(files, hash)
                == [65, 82, 67, 72, 66, 73, 82, 68, 95, 67, 83, 82, 67, 95, 66, 85, 78, 68, 76, 69, 95, 86, 49, 10]
                   + BigEndian(|header|, 8) + header + ContentOf(keys, files)
             && |header| == HeaderLength(files, hash) == |Write(HeaderJson(RowsOf(keys, files, hash)))|
             && forall i | 0 <= i < |header| :: header[i] == Write(HeaderJson(RowsOf(keys, files, hash)))[i] as int)
  {
    SortedKeys(files);
    assert MAGIC == [65, 82, 67, 72, 66, 73, 82, 68, 95, 67, 83, 82, 67, 95, 66, 85, 78, 68, 76, 69, 95, 86, 49, 10];
  }

  // ----- the header text

  /** Printable ASCII without quotes and backslashes. */
  predicate IsPlain(s: string) {
    forall i | 0 <= i < |s| :: ' ' <= s[i] <= '~' && s[i] != '\"' && s[i] != '\\'
  }

  /** A plain text is written as it is, between quotes. */
  lemma {:induction false} PlainText(s: string)
    requires IsPlain(s)
    ensures Escape(s) == s && Quote(s) == "\"" + s + "\""
  {
    if s != [] {
      PlainText(s[1..]);
      assert s == [s[0]] + s[1..];
    }
  }

  const HEX := "0123456789abcdef"

  /** `\u` and four lower-case hexadecimal digits. */
  function UnicodeEscape(n: nat): string
    requires n < 0x10000
  {
    ['\\', 'u', HEX[n / 4096], HEX[n / 256 % 16], HEX[n / 16 % 16], HEX[n % 16]]
  }

  /** The writer escapes quote and backslash by a backslash, the usual controls by their letter, and every other character
      outside printable ASCII by its UTF-16 units. */
  lemma EscapeExactly(c: char)
    ensures (c == '\"' || c == '\\') ==> EscapeChar(c) == ['\\', c]
    ensures EscapeChar('\n') == "\\n" && EscapeChar('\r') == "\\r" && EscapeChar('\t') == "\\t"
    ensures EscapeChar(12 as char) == "\\f" && EscapeChar(8 as char) == "\\b"
    ensures ' ' <= c <= '~' && c != '\"' && c != '\\' ==> EscapeChar(c) == [c]
    ensures !(' ' <= c <= '~') && c as int !in {8, 9, 10, 12, 13} && c as int < 0x10000 ==> EscapeChar(c) == UnicodeEscape(c as int)
    ensures c as int >= 0x10000 ==>
              EscapeChar(c) == UnicodeEscape(0xD800 + (c as int - 0x10000) / 1024) + UnicodeEscape(0xDC00 + (c as int - 0x10000) % 1024)
  {
    forall n: nat | n < 16 ensures HexDigit(n) == HEX[n] {}
    forall n: nat | n < 0x10000 ensures Unicode(n) == UnicodeEscape(n) {}
  }

  /** A key, a colon and a value, without spaces. */
  ghost function Entry(key: string, value: string): string {
    "\"" + key + "\":" + value
  }

  /** The text of a row: four entries in key order. */
  ghost function RowText(row: Row): string {
    "{" + (Entry("bytes", WriteInt(row.length)) + ","
           + (Entry("offset", WriteInt(row.offset)) + ","
              + (Entry("path", Quote(row.path)) + "," + Entry("sha256", Quote(row.sha256))))) + "}"
  }

  ghost function RowTexts(rows: seq<Row>): string {
    if rows == [] then ""
    else if |rows| == 1 then RowText(rows[0])
    else RowText(rows[0]) + "," + RowTexts(rows[1..])
  }

  lemma MemberText(key: string, value: Json)
    requires IsPlain(key)
    ensures WriteMember(Member(key, value)) == Entry(key, Write(value))
  {
    PlainText(key);
    assert "\"" + key + "\"" + ":" == "\"" + key + "\":";
  }

  lemma FourMembers(a: Member, b: Member, c: Member, d: Member)
    ensures WriteMembers([a, b, c, d])
            == WriteMember(a) + "," + (WriteMember(b) + "," + (WriteMember(c) + "," + WriteMember(d)))
  {
    assert [a, b, c, d][1..] == [b, c, d] && [b, c, d][1..] == [c, d] && [c, d][1..] == [d];
    hide WriteMember;
    assert WriteMembers([d]) == WriteMember(d);
    assert WriteMembers([c, d]) == WriteMember(c) + "," + WriteMember(d);
    assert WriteMembers([b, c, d]) == WriteMember(b) + "," + (WriteMember(c) + "," + WriteMember(d));
  }

  lemma TwoMembers(a: Member, b: Member)
    ensures WriteMembers([a, b]) == WriteMember(a) + "," + WriteMember(b)
  {
    assert [a, b][1..] == [b];
    hide WriteMember;
    assert WriteMembers([b]) == WriteMember(b);
  }

  lemma ValueTexts(n: int, text: string, items: seq<Json>, members: seq<Member>)
    ensures Write(Number(n)) == WriteInt(n) && Write(Text(text)) == Quote(text)
    ensures Write(List(items)) == "[" + WriteItems(items) + "]" && Write(Object(members)) == "{" + WriteMembers(members) + "}"
  {
    hide WriteInt, Quote, WriteItems, WriteMembers;
  }

  lemma PlainKeys()
    ensures IsPlain("bytes") && IsPlain("offset") && IsPlain("path") && IsPlain("sha256") && IsPlain("artifact") && IsPlain("files")
    ensures IsPlain(ARTIFACT)
  {}

  lemma RowMembers(row: Row)
    ensures RowJson(row) == Object([Member("bytes", Number(row.length)), Member("offset", Number(row.offset)),
                                    Member("path", Text(row.path)), Member("sha256", Text(row.sha256))])
  {}

  lemma RowJsonText(row: Row)
    ensures Write(RowJson(row)) == RowText(row)
  {
    hide Write, WriteMember, WriteMembers, WriteInt, Quote, Entry, IsPlain, RowJson;
    var a, b := Member("bytes", Number(row.length)), Member("offset", Number(row.offset));
    var c, d := Member("path", Text(row.path)), Member("sha256", Text(row.sha256));
    PlainKeys();
    RowMembers(row);
    MemberText("bytes", a.value);
    MemberText("offset", b.value);
    MemberText("path", c.value);
    MemberText("sha256", d.value);
    FourMembers(a, b, c, d);
    ValueTexts(row.length, row.path, [], [a, b, c, d]);
    ValueTexts(row.offset, row.sha256, [], []);
  }

  lemma {:induction false} RowsText(rows: seq<Row>)
    ensures WriteItems(RowsJson(rows)) == RowTexts(rows)
  {
    hide Write, RowText, RowJson;
    if rows != [] {
      RowJsonText(rows[0]);
      if |rows| > 1 {
        RowsText(rows[1..]);
        assert RowsJson(rows)[1..] == RowsJson(rows[1..]);
      }
    }
  }

  /** The header is sorted by key and has no spaces: the artifact's name and the rows in order, each with its bytes, offset,
      path and digest. */
  lemma HeaderText(rows: seq<Row>)
    ensures Write(HeaderJson(rows))
            == "{" + (Entry("artifact", "\"" + "archbird-c-source-bundle" + "\"") + ","
                      + Entry("files", "[" + RowTexts(rows) + "]")) + "}"
  {
    var a, f := Member("artifact", Text(ARTIFACT)), Member("files", List(RowsJson(rows)));
    hide Write, WriteMember, WriteMembers, WriteInt, Quote, Entry, IsPlain, RowTexts, WriteItems;
    PlainKeys();
    MemberText("artifact", a.value);
    MemberText("files", f.value);
    TwoMembers(a, f);
    RowsText(rows);
    PlainText(ARTIFACT);
    ValueTexts(0, ARTIFACT, RowsJson(rows), [a, f]);
  }

  // ----- reading rows

  /** The value of the last member with this key. */
  ghost predicate LastValue(members: seq<Member>, key: string, value: Option<Json>) {
    if value.None? then forall k | 0 <= k < |members| :: members[k].key != key
    else
      exists k :: 0 <= k < |members| && members[k] == Member(key, value.value)
                  && forall j | k < j < |members| :: members[j].key != key
  }

  lemma {:induction false} GetExactly(members: seq<Member>, key: string)
    ensures LastValue(members, key, Get(members, key))
  {
    if members != [] {
      var n := |members| - 1;
      if members[n].key != key {
        GetExactly(members[..n], key);
        var value := Get(members, key);
        if value.None? {
          assert forall k | 0 <= k < n :: members[k] == members[..n][k];
        } else {
          var k :| 0 <= k < n && members[..n][k] == Member(key, value.value) && forall j | k < j < n :: members[..n][j].key != key;
          assert members[k] == members[..n][k] && forall j | k < j < n :: members[j] == members[..n][j];
        }
      } else {
        assert members[n] == Member(key, members[n].value);
      }
    }
  }

  /** An integer, or a truth value in place of one or zero. */
  predicate Integer(j: Json, n: int) {
    j == Number(n) || (j == Bool(true) && n == 1) || (j == Bool(false) && n == 0)
  }

  /** The document is an object whose last values of the four keys make up the row. */
  ghost predicate IsRow(j: Json, row: Row) {
    && j.Object? && LastValue(j.members, "path", Some(Text(row.path))) && LastValue(j.members, "sha256", Some(Text(row.sha256)))
    && (exists offset :: LastValue(j.members, "offset", Some(offset)) && Integer(offset, row.offset))
    && (exists length :: LastValue(j.members, "bytes", Some(length)) && Integer(length, row.length))
  }

  lemma OneLastValue(members: seq<Member>, key: string, a: Option<Json>, b: Option<Json>)
    requires LastValue(members, key, a) && LastValue(members, key, b)
    ensures a == b
  {
    if a.Some? && b.Some? {
      var i :| 0 <= i < |members| && members[i] == Member(key, a.value) && forall j | i < j < |members| :: members[j].key != key;
      var k :| 0 <= k < |members| && members[k] == Member(key, b.value) && forall j | k < j < |members| :: members[j].key != key;
      assert i == k;
    }
  }

  lemma GetMeans(members: seq<Member>, key: string, value: Option<Json>)
    ensures LastValue(members, key, value) <==> Get(members, key) == value
  {
    GetExactly(members, key);
    hide LastValue, Get;
    if LastValue(members, key, value) { OneLastValue(members, key, value, Get(members, key)); }
  }

  /** A row is read exactly from the objects that give it. */
  lemma ReadRowExactly(j: Json, row: Row)
    ensures ReadRow(j) == Some(row) <==> IsRow(j, row)
  {
    if j.Object? {
      forall key, value
        ensures LastValue(j.members, key, value) <==> Get(j.members, key) == value
      {
        GetMeans(j.members, key, value);
      }
      hide LastValue, Get;
      var offset, length := Get(j.members, "offset"), Get(j.members, "bytes");
      assert AsInt(offset) == Some(row.offset) <==> offset.Some? && Integer(offset.value, row.offset);
      assert AsInt(length) == Some(row.length) <==> length.Some? && Integer(length.value, row.length);
    }
  }

  /** What precedes the content: the signature line, the header length, and a header that names the artifact and lists the
      files. */
  ghost predicate IsFrame(payload: Bytes, loads: Bytes -> Option<Json>, items: seq<Json>, content: Bytes) {
    exists header: Bytes, members: seq<Member> ::
      && |header| < LENGTH_LIMIT
      && payload == [65, 82, 67, 72, 66, 73, 82, 68, 95, 67, 83, 82, 67, 95, 66, 85, 78, 68, 76, 69, 95, 86, 49, 10]
                    + BigEndian(|header|, 8) + header + content
      && loads(header) == Some(Object(members))
      && LastValue(members, "artifact", Some(Text("archbird-c-source-bundle"))) && LastValue(members, "files", Some(List(items)))
  }
}
