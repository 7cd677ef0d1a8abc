/** The bundle reader inverts the writer, and accepts nothing that is not a proper tiling. */
module BundleRoundTrip {
  import opened Prelude
  import opened Ordering
  import opened PosixPath
  import opened JsonText
  import opened SourceBundle

  // ----- round trip

  /** `loads` reads back every header the writer can produce. */
  ghost predicate ReadsRows(loads: Bytes -> Option<Json>) {
    forall rows: seq<Row> :: loads(Dumps(HeaderJson(rows))) == Some(HeaderJson(rows))
  }

  /** The concrete JSON reader does. */
  lemma LoadsReadsRows()
    ensures ReadsRows(Loads)
  {
    forall rows: seq<Row>
      ensures Loads(Dumps(HeaderJson(rows))) == Some(HeaderJson(rows))
    {
      LoadsDumps(HeaderJson(rows));
    }
  }

  /** No two members normalise to the same path. */
  ghost predicate InjectivePaths(files: Files) {
    forall a, b | a in files && b in files && AsPosix(a) == AsPosix(b) :: a == b
  }

  /** The same bytes under normalised names. */
  ghost function Normalised(keys: seq<string>, files: Files): Files
    requires forall i | 0 <= i < |keys| :: keys[i] in files
  {
    if keys == [] then map[] else
      var last := keys[|keys| - 1];
      Normalised(keys[..|keys| - 1], files)[AsPosix(last) := files[last]]
  }

  lemma {:induction false} ContentPrefix(keys: seq<string>, files: Files, n: nat)
    requires forall i | 0 <= i < |keys| :: keys[i] in files
    requires n <= |keys|
    ensures ContentOf(keys[..n], files) <= ContentOf(keys, files)
  {
    if n == |keys| {
      assert keys[..n] == keys;
    } else {
      var init := keys[..|keys| - 1];
      assert keys[..n] == init[..n];
      ContentPrefix(init, files, n);
    }
  }

  lemma MemberSlice(keys: seq<string>, files: Files, i: nat)
    requires forall i | 0 <= i < |keys| :: keys[i] in files
    requires i < |keys|
    ensures var start, end := |ContentOf(keys[..i], files)|, |ContentOf(keys[..i + 1], files)|;
            && end == start + |files[keys[i]]| <= |ContentOf(keys, files)|
            && ContentOf(keys, files)[start..end] == files[keys[i]]
  {
    ContentStep(keys, files, i);
    ContentPrefix(keys, files, i + 1);
  }

  lemma {:induction false} NormalisedKeys(keys: seq<string>, files: Files, path: string)
    requires forall i | 0 <= i < |keys| :: keys[i] in files
    ensures path in Normalised(keys, files) <==> exists i | 0 <= i < |keys| :: AsPosix(keys[i]) == path
  {
    hide AsPosix;
    if keys != [] {
      var init, last := keys[..|keys| - 1], keys[|keys| - 1];
      NormalisedKeys(init, files, path);
      if i :| 0 <= i < |init| && AsPosix(init[i]) == path {
        assert AsPosix(keys[i]) == path;
      }
      if i :| 0 <= i < |keys| && AsPosix(keys[i]) == path {
        if i < |init| { assert AsPosix(init[i]) == path; }
      }
    }
  }

  /** The reader's state after the first `n` members. */
  ghost function After(keys: seq<string>, files: Files, n: nat): Progress
    requires forall i | 0 <= i < |keys| :: keys[i] in files
    requires n <= |keys|
  {
    Progress(Normalised(keys[..n], files), |ContentOf(keys[..n], files)|)
  }

  /** A row that describes `data` where the content has it is refused only for a repeated path. */
  lemma PlaceDescribed(p: Progress, row: Row, content: Bytes, hash: Bytes -> string, path: string, data: Bytes)
    requires SafePath(row.path) == Ok(path)
    requires row.offset == p.expectedOffset && row.length == |data| && row.sha256 == hash(data)
    requires p.expectedOffset + |data| <= |content| && content[p.expectedOffset..p.expectedOffset + |data|] == data
    ensures Place(p, row, content, hash)
            == if path in p.result then Err(BadOrdering)
               else Ok(Progress(p.result[path := data], p.expectedOffset + |data|))
  {}

  lemma AfterStep(keys: seq<string>, files: Files, n: nat)
    requires forall i | 0 <= i < |keys| :: keys[i] in files
    requires n < |keys|
    ensures After(keys, files, n + 1) == Progress(After(keys, files, n).result[AsPosix(keys[n]) := files[keys[n]]],
                                                  After(keys, files, n).expectedOffset + |files[keys[n]]|)
  {
    assert keys[..n + 1][..n] == keys[..n];
    ContentStep(keys, files, n);
  }

  /** One written row is accepted unless its normalised path was seen before. */
  lemma PlaceWritten(keys: seq<string>, files: Files, hash: Bytes -> string, n: nat)
    requires forall i | 0 <= i < |keys| :: keys[i] in files && SafePath(keys[i]).Ok?
    requires n < |keys|
    ensures Place(After(keys, files, n), RowAt(keys, files, hash, n), ContentOf(keys, files), hash)
            == if AsPosix(keys[n]) in Normalised(keys[..n], files) then Err(BadOrdering) else Ok(After(keys, files, n + 1))
  {
    hide Place, ContentOf, Normalised, Components;
    SafePathStable(keys[n]);
    MemberSlice(keys, files, n);
    AfterStep(keys, files, n);
    PlaceDescribed(After(keys, files, n), RowAt(keys, files, hash, n), ContentOf(keys, files), hash,
                   AsPosix(keys[n]), files[keys[n]]);
  }

  ghost predicate DistinctFrom(keys: seq<string>, files: Files, n: nat)
    requires forall i | 0 <= i < |keys| :: keys[i] in files
    requires n <= |keys|
  {
    forall k | n <= k < |keys| :: AsPosix(keys[k]) !in Normalised(keys[..k], files)
  }

  lemma {:induction false} AcceptWrittenFrom(keys: seq<string>, files: Files, hash: Bytes -> string, n: nat)
    requires forall i | 0 <= i < |keys| :: keys[i] in files && SafePath(keys[i]).Ok?
    requires n <= |keys|
    ensures AcceptRows(After(keys, files, n), RowsJson(RowsOf(keys, files, hash))[n..], ContentOf(keys, files), hash)
            == if DistinctFrom(keys, files, n) then Ok(After(keys, files, |keys|)) else Err(BadOrdering)
    decreases |keys| - n
  {
    hide After, RowsOf, RowsJson, ContentOf, RowJson, ReadRow, RowAt, Place, AsPosix, Normalised;
    var items := RowsJson(RowsOf(keys, files, hash));
    if n < |keys| {
      PlaceWritten(keys, files, hash, n);
      ReadRowJson(RowAt(keys, files, hash, n));
      assert items[n..][0] == RowJson(RowAt(keys, files, hash, n)) && items[n..][1..] == items[n + 1..];
      AcceptWrittenFrom(keys, files, hash, n + 1);
    }
  }

  lemma FrameOfPayload(files: Files, hash: Bytes -> string, loads: Bytes -> Option<Json>)
    requires ReadsRows(loads) && HeaderLength(files, hash) < LENGTH_LIMIT
    ensures forall i | 0 <= i < |Sorted(files.Keys)| :: Sorted(files.Keys)[i] in files
    ensures ReadFrame(Payload(files, hash), loads)
            == Ok(Frame(RowsJson(RowsOf(Sorted(files.Keys), files, hash)), ContentOf(Sorted(files.Keys), files)))
  {
    SortedKeys(files);
    var keys := Sorted(files.Keys);
    var rows, content := RowsOf(keys, files, hash), ContentOf(keys, files);
    var header := Dumps(HeaderJson(rows));
    var payload := Payload(files, hash);
    EightBytes();
    BigEndianInverse(|header|, 8);
    SplitPayload(MAGIC, BigEndian(|header|, 8), header, content);
    assert loads(header) == Some(HeaderJson(rows));
    ReadHeaderJson(rows);
  }

  lemma SplitPayload(magic: Bytes, length: Bytes, header: Bytes, content: Bytes)
    requires |magic| == 24 && |length| == 8
    ensures var payload := magic + length + header + content;
            && |payload| >= PREFIX && magic <= payload
            && payload[24..PREFIX] == length
            && payload[PREFIX..PREFIX + |header|] == header
            && payload[PREFIX + |header|..] == content
  {}

  lemma InjectiveIsDistinct(keys: seq<string>, files: Files)
    requires forall i | 0 <= i < |keys| :: keys[i] in files
    requires Ascending(keys) && InjectivePaths(files)
    ensures DistinctFrom(keys, files, 0)
  {
    forall k | 0 <= k < |keys|
      ensures AsPosix(keys[k]) !in Normalised(keys[..k], files)
    {
      NormalisedKeys(keys[..k], files, AsPosix(keys[k]));
      forall i | 0 <= i < k
        ensures AsPosix(keys[..k][i]) != AsPosix(keys[k])
      {
        assert keys[..k][i] == keys[i] != keys[k];
      }
    }
  }

  lemma DistinctPair(keys: seq<string>, files: Files, i: nat, j: nat)
    requires forall i | 0 <= i < |keys| :: keys[i] in files
    requires i < j < |keys| && DistinctFrom(keys, files, 0)
    ensures AsPosix(keys[i]) != AsPosix(keys[j])
  {
    NormalisedKeys(keys[..j], files, AsPosix(keys[j]));
    assert keys[..j][i] == keys[i];
  }

  lemma DistinctIsInjective(keys: seq<string>, files: Files)
    requires forall i | 0 <= i < |keys| :: keys[i] in files
    requires forall k | k in files :: k in keys
    requires DistinctFrom(keys, files, 0)
    ensures InjectivePaths(files)
  {
    forall a, b | a in files && b in files && AsPosix(a) == AsPosix(b)
      ensures a == b
    {
      var i :| 0 <= i < |keys| && keys[i] == a;
      var j :| 0 <= j < |keys| && keys[j] == b;
      if i < j { DistinctPair(keys, files, i, j); }
      if j < i { DistinctPair(keys, files, j, i); }
    }
  }

  lemma {:induction false} NormalisedLookup(keys: seq<string>, files: Files, i: nat)
    requires forall i | 0 <= i < |keys| :: keys[i] in files
    requires i < |keys| && DistinctFrom(keys, files, 0)
    ensures AsPosix(keys[i]) in Normalised(keys, files) && Normalised(keys, files)[AsPosix(keys[i])] == files[keys[i]]
  {
    hide AsPosix;
    var init, last := keys[..|keys| - 1], keys[|keys| - 1];
    if i < |keys| - 1 {
      forall k | 0 <= k < |init|
        ensures AsPosix(init[k]) !in Normalised(init[..k], files)
      {
        assert init[..k] == keys[..k] && init[k] == keys[k];
      }
      NormalisedLookup(init, files, i);
      assert keys[..|keys| - 1] == init;
      NormalisedKeys(init, files, AsPosix(last));
      assert AsPosix(last) !in Normalised(keys[..|keys| - 1], files);
    }
  }

  lemma DecodedWritten(keys: seq<string>, files: Files, hash: Bytes -> string)
    requires forall i | 0 <= i < |keys| :: keys[i] in files && SafePath(keys[i]).Ok?
    ensures DecodedFrame(Frame(RowsJson(RowsOf(keys, files, hash)), ContentOf(keys, files)), hash)
            == if DistinctFrom(keys, files, 0) then Ok(Normalised(keys, files)) else Err(BadOrdering)
  {
    AcceptWrittenFrom(keys, files, hash, 0);
    var items := RowsJson(RowsOf(keys, files, hash));
    assert items[0..] == items && keys[..0] == [] && keys[..|keys|] == keys;
    assert After(keys, files, 0) == Progress(map[], 0);
  }

  lemma DecodedPayload(files: Files, hash: Bytes -> string, loads: Bytes -> Option<Json>)
    requires ReadsRows(loads)
    requires AllSafe(files) && HeaderLength(files, hash) < LENGTH_LIMIT
    ensures forall i | 0 <= i < |Sorted(files.Keys)| :: Sorted(files.Keys)[i] in files
    ensures var keys := Sorted(files.Keys);
            Decoded(Payload(files, hash), hash, loads)
            == if DistinctFrom(keys, files, 0) then Ok(Normalised(keys, files)) else Err(BadOrdering)
  {
    SortedKeys(files);
    FrameOfPayload(files, hash, loads);
    DecodedWritten(Sorted(files.Keys), files, hash);
  }

  /** `r` holds each member's bytes under its normalised path, and nothing else. */
  ghost predicate IsNormalisation(files: Files, r: Files) {
    && (forall k | k in files :: AsPosix(k) in r && r[AsPosix(k)] == files[k])
    && (forall p | p in r :: exists k | k in files :: AsPosix(k) == p)
  }

  lemma NormalisedIsNormalisation(keys: seq<string>, files: Files)
    requires forall i | 0 <= i < |keys| :: keys[i] in files
    requires forall k | k in files :: k in keys
    requires DistinctFrom(keys, files, 0)
    ensures IsNormalisation(files, Normalised(keys, files))
  {
    forall k | k in files
      ensures AsPosix(k) in Normalised(keys, files) && Normalised(keys, files)[AsPosix(k)] == files[k]
    {
      var i :| 0 <= i < |keys| && keys[i] == k;
      NormalisedLookup(keys, files, i);
    }
    forall p | p in Normalised(keys, files)
      ensures exists k | k in files :: AsPosix(k) == p
    {
      NormalisedKeys(keys, files, p);
    }
  }

  /** Packing safe members and unpacking the payload succeeds exactly when no two members share a normalised path,
      and then gives each member's bytes back under its normalised path and nothing else. */
  lemma RoundTrip(files: Files, hash: Bytes -> string, loads: Bytes -> Option<Json>)
    requires ReadsRows(loads)
    requires AllSafe(files) && HeaderLength(files, hash) < LENGTH_LIMIT
    ensures Decoded(Payload(files, hash), hash, loads).Ok? <==> InjectivePaths(files)
    ensures !InjectivePaths(files) ==> Decoded(Payload(files, hash), hash, loads) == Err(BadOrdering)
    ensures InjectivePaths(files) ==> IsNormalisation(files, Decoded(Payload(files, hash), hash, loads).value)
  {
    DecodedPayload(files, hash, loads);
    SortedKeys(files);
    var keys := Sorted(files.Keys);
    if InjectivePaths(files) {
      InjectiveIsDistinct(keys, files);
      NormalisedIsNormalisation(keys, files);
    } else if DistinctFrom(keys, files, 0) {
      DistinctIsInjective(keys, files);
    }
  }

  ghost predicate Canonical(files: Files) {
    forall k | k in files :: SafePath(k) == Ok(k)
  }

  lemma CanonicalNormalisation(files: Files, r: Files)
    requires Canonical(files) && IsNormalisation(files, r)
    ensures r == files
  {
    forall k | k in files
      ensures AsPosix(k) == k
    {
      assert SafePath(k) == Ok(AsPosix(k));
    }
    assert r.Keys == files.Keys;
  }

  /** Members already stored under canonical paths come back as they were. */
  lemma RoundTripCanonical(files: Files, hash: Bytes -> string)
    requires Canonical(files) && HeaderLength(files, hash) < LENGTH_LIMIT
    ensures Decoded(Payload(files, hash), hash, Loads) == Ok(files)
  {
    LoadsReadsRows();
    assert InjectivePaths(files) by {
      forall k | k in files ensures AsPosix(k) == k { assert SafePath(k) == Ok(AsPosix(k)); }
    }
    RoundTrip(files, hash, Loads);
    CanonicalNormalisation(files, Decoded(Payload(files, hash), hash, Loads).value);
  }

  // ----- soundness of the reader

  function Total(rows: seq<Row>): int {
    if rows == [] then 0 else Total(rows[..|rows| - 1]) + rows[|rows| - 1].length
  }

  function RowsRead(items: seq<Json>): seq<Row>
    requires forall i | 0 <= i < |items| :: ReadRow(items[i]).Some?
  {
    seq(|items|, i requires 0 <= i < |items| => ReadRow(items[i]).value)
  }

  /** `rows` cut the first `end` bytes of `content` into consecutive, verified members with distinct safe paths,
      and `result` holds exactly those members. */
  ghost predicate Tiles(rows: seq<Row>, content: Bytes, end: nat, result: Files, hash: Bytes -> string) {
    && (forall i | 0 <= i < |rows| :: RowInPlace(rows, content, result, hash, i))
    && (forall i, j | 0 <= i < j < |rows| :: SafePath(rows[i].path) != SafePath(rows[j].path))
    && end == Total(rows) && end <= |content|
    && (forall p | p in result :: Describes(rows, p))
  }

  /** Some row names `path`. */
  ghost predicate Describes(rows: seq<Row>, path: string) {
    exists i | 0 <= i < |rows| :: SafePath(rows[i].path) == Ok(path)
  }

  ghost predicate RowInPlace(rows: seq<Row>, content: Bytes, result: Files, hash: Bytes -> string, i: nat)
    requires i < |rows|
  {
    var row := rows[i];
    && row.offset == Total(rows[..i]) && 0 <= row.offset && 0 <= row.length && row.offset + row.length <= |content|
    && SafePath(row.path).Ok? && SafePath(row.path).value in result
    && result[SafePath(row.path).value] == content[row.offset..row.offset + row.length]
    && hash(content[row.offset..row.offset + row.length]) == row.sha256
  }

  lemma RowsStayInPlace(rows: seq<Row>, longer: seq<Row>, content: Bytes, p: Progress, hash: Bytes -> string,
                        path: string, result: Files)
    requires Tiles(rows, content, p.expectedOffset, p.result, hash)
    requires path !in p.result && p.result == result - {path} && rows < longer
    ensures forall i | 0 <= i < |rows| :: RowInPlace(longer, content, result, hash, i)
    ensures forall i | 0 <= i < |rows| :: SafePath(longer[i].path) != Ok(path)
  {
    hide SafePath;
    forall i | 0 <= i < |rows|
      ensures RowInPlace(longer, content, result, hash, i) && SafePath(longer[i].path) != Ok(path)
    {
      assert RowInPlace(rows, content, p.result, hash, i);
      assert longer[..i] == rows[..i] && longer[i] == rows[i];
    }
  }

  lemma Placed(p: Progress, row: Row, content: Bytes, hash: Bytes -> string)
    requires 0 <= p.expectedOffset && Place(p, row, content, hash).Ok?
    ensures SafePath(row.path).Ok? && SafePath(row.path).value !in p.result
    ensures row.offset == p.expectedOffset && 0 <= row.length && p.expectedOffset + row.length <= |content|
    ensures var data := content[p.expectedOffset..p.expectedOffset + row.length];
            && hash(data) == row.sha256
            && Place(p, row, content, hash)
               == Ok(Progress(p.result[SafePath(row.path).value := data], p.expectedOffset + row.length))
  {}

  lemma TilesExtend(rows: seq<Row>, content: Bytes, p: Progress, hash: Bytes -> string, row: Row, path: string, end: nat)
    requires Tiles(rows, content, p.expectedOffset, p.result, hash)
    requires SafePath(row.path) == Ok(path) && path !in p.result
    requires row.offset == p.expectedOffset && 0 <= row.length && end == p.expectedOffset + row.length <= |content|
    requires hash(content[p.expectedOffset..end]) == row.sha256
    ensures Tiles(rows + [row], content, end, p.result[path := content[p.expectedOffset..end]], hash)
  {
    hide SafePath;
    var longer, result := rows + [row], p.result[path := content[p.expectedOffset..end]];
    RowsStayInPlace(rows, longer, content, p, hash, path, result);
    assert longer[..|rows|] == rows;
    assert RowInPlace(longer, content, result, hash, |rows|);
    forall i, k | 0 <= i < k < |longer|
      ensures SafePath(longer[i].path) != SafePath(longer[k].path)
    {
      if k < |rows| { assert longer[i] == rows[i] && longer[k] == rows[k]; }
    }
    forall q | q in result
      ensures Describes(longer, q)
    {
      DescribesMore(rows, row, q);
    }
  }

  lemma DescribesMore(rows: seq<Row>, row: Row, path: string)
    ensures Describes(rows + [row], path) <==> Describes(rows, path) || SafePath(row.path) == Ok(path)
  {
    var longer := rows + [row];
    assert longer[|rows|] == row;
    if Describes(rows, path) {
      var i :| 0 <= i < |rows| && SafePath(rows[i].path) == Ok(path);
      assert longer[i] == rows[i];
    }
  }

  lemma TilesStep(rows: seq<Row>, content: Bytes, p: Progress, hash: Bytes -> string, row: Row)
    requires Tiles(rows, content, p.expectedOffset, p.result, hash)
    requires Place(p, row, content, hash).Ok?
    ensures var next := Place(p, row, content, hash).value;
            Tiles(rows + [row], content, next.expectedOffset, next.result, hash)
  {
    Placed(p, row, content, hash);
    TilesExtend(rows, content, p, hash, row, SafePath(row.path).value, p.expectedOffset + row.length);
  }

  lemma {:induction false} AcceptedTiles(done: seq<Row>, p: Progress, items: seq<Json>, content: Bytes, hash: Bytes -> string)
    requires Tiles(done, content, p.expectedOffset, p.result, hash)
    requires AcceptRows(p, items, content, hash).Ok?
    ensures forall i | 0 <= i < |items| :: ReadRow(items[i]).Some?
    ensures var end := AcceptRows(p, items, content, hash).value;
            Tiles(done + RowsRead(items), content, end.expectedOffset, end.result, hash)
    decreases |items|
  {
    if items == [] {
      assert done + RowsRead(items) == done;
    } else {
      var row := ReadRow(items[0]).value;
      TilesStep(done, content, p, hash, row);
      AcceptedTiles(done + [row], Place(p, row, content, hash).value, items[1..], content, hash);
      RowsReadStep(items);
      assert done + [row] + RowsRead(items[1..]) == done + RowsRead(items);
    }
  }

  lemma RowsReadStep(items: seq<Json>)
    requires items != [] && ReadRow(items[0]).Some?
    requires forall i | 0 <= i < |items| - 1 :: ReadRow(items[1..][i]).Some?
    ensures forall i | 0 <= i < |items| :: ReadRow(items[i]).Some?
    ensures RowsRead(items) == [ReadRow(items[0]).value] + RowsRead(items[1..])
  {
    forall i | 0 <= i < |items|
      ensures ReadRow(items[i]).Some?
    {
      if i > 0 { assert items[1..][i - 1] == items[i]; }
    }
  }

  /** Every accepted payload is a proper bundle: its rows tile the whole content in order, with distinct safe paths
      and matching digests, and the result is exactly the table they describe. */
  lemma DecodedIsTiling(payload: Bytes, hash: Bytes -> string, loads: Bytes -> Option<Json>)
    requires Decoded(payload, hash, loads).Ok?
    ensures ReadFrame(payload, loads).Ok?
    ensures var frame := ReadFrame(payload, loads).value;
            && (forall i | 0 <= i < |frame.items| :: ReadRow(frame.items[i]).Some?)
            && Tiles(RowsRead(frame.items), frame.content, |frame.content|, Decoded(payload, hash, loads).value, hash)
  {
    var frame := ReadFrame(payload, loads).value;
    AcceptedTiles([], Progress(map[], 0), frame.items, frame.content, hash);
    assert [] + RowsRead(frame.items) == RowsRead(frame.items);
  }

  /** The bytes `result` holds for a row. */
  ghost function MemberOf(row: Row, result: Files): Bytes {
    var path := SafePath(row.path);
    if path.Ok? && path.value in result then result[path.value] else []
  }

  /** The members of the first `n` rows, joined. */
  ghost function Joined(rows: seq<Row>, result: Files, n: nat): Bytes
    requires n <= |rows|
  {
    if n == 0 then [] else Joined(rows, result, n - 1) + MemberOf(rows[n - 1], result)
  }

  lemma {:induction false} JoinedIsContent(rows: seq<Row>, content: Bytes, end: nat, result: Files, hash: Bytes -> string, n: nat)
    requires Tiles(rows, content, end, result, hash) && n <= |rows|
    ensures 0 <= Total(rows[..n]) <= |content|
    ensures Joined(rows, result, n) == content[..Total(rows[..n])]
  {
    hide SafePath;
    if n > 0 {
      JoinedIsContent(rows, content, end, result, hash, n - 1);
      MemberInPlace(rows, content, result, hash, n - 1);
      assert rows[..n][..n - 1] == rows[..n - 1];
    }
  }

  lemma MemberInPlace(rows: seq<Row>, content: Bytes, result: Files, hash: Bytes -> string, i: nat)
    requires i < |rows| && RowInPlace(rows, content, result, hash, i)
    ensures var start, end := Total(rows[..i]), Total(rows[..i]) + rows[i].length;
            0 <= start <= end <= |content| && content[..start] + MemberOf(rows[i], result) == content[..end]
  {}

  /** Joining the members in row order gives back the whole content. */
  lemma MembersCoverContent(payload: Bytes, hash: Bytes -> string, loads: Bytes -> Option<Json>)
    requires Decoded(payload, hash, loads).Ok?
    ensures ReadFrame(payload, loads).Ok?
    ensures var frame := ReadFrame(payload, loads).value;
            && (forall i | 0 <= i < |frame.items| :: ReadRow(frame.items[i]).Some?)
            && Joined(RowsRead(frame.items), Decoded(payload, hash, loads).value, |frame.items|) == frame.content
  {
    DecodedIsTiling(payload, hash, loads);
    var frame := ReadFrame(payload, loads).value;
    var rows := RowsRead(frame.items);
    JoinedIsContent(rows, frame.content, |frame.content|, Decoded(payload, hash, loads).value, hash, |rows|);
    assert rows[..|rows|] == rows;
  }

  ghost predicate CollisionFree(hash: Bytes -> string) {
    forall a, b :: hash(a) == hash(b) ==> a == b
  }

  lemma SameDigestSameMember(rows: seq<Row>, a: Bytes, b: Bytes, hash: Bytes -> string, ra: Files, rb: Files, i: nat)
    requires CollisionFree(hash) && i < |rows|
    requires RowInPlace(rows, a, ra, hash, i) && RowInPlace(rows, b, rb, hash, i)
    ensures MemberOf(rows[i], ra) == MemberOf(rows[i], rb)
  {}

  lemma {:induction false} SameRowsSameMembers(rows: seq<Row>, a: Bytes, b: Bytes, hash: Bytes -> string, ra: Files, rb: Files, n: nat)
    requires CollisionFree(hash)
    requires forall i | 0 <= i < |rows| :: RowInPlace(rows, a, ra, hash, i) && RowInPlace(rows, b, rb, hash, i)
    requires n <= |rows|
    ensures Joined(rows, ra, n) == Joined(rows, rb, n)
  {
    hide SafePath;
    if n > 0 {
      SameRowsSameMembers(rows, a, b, hash, ra, rb, n - 1);
      SameDigestSameMember(rows, a, b, hash, ra, rb, n - 1);
    }
  }

  lemma SameInventory(a: Bytes, b: Bytes, loads: Bytes -> Option<Json>)
    requires ReadFrame(a, loads).Ok? && ReadFrame(b, loads).Ok?
    requires a[..HeaderEnd(a)] == b[..HeaderEnd(b)]
    ensures ReadFrame(a, loads).value.items == ReadFrame(b, loads).value.items
    ensures ReadFrame(a, loads).value.content == ReadFrame(b, loads).value.content ==> a == b
  {
    var end := HeaderEnd(a);
    assert a[PREFIX..end] == a[..end][PREFIX..] && b[PREFIX..end] == b[..end][PREFIX..];
    assert a == a[..end] + a[end..] && b == b[..end] + b[end..];
  }

  /** With a collision-free digest the header pins the content: two accepted payloads that agree up to the end of
      their headers are the same payload. */
  lemma HeaderDeterminesContent(a: Bytes, b: Bytes, hash: Bytes -> string, loads: Bytes -> Option<Json>)
    requires CollisionFree(hash)
    requires Decoded(a, hash, loads).Ok? && Decoded(b, hash, loads).Ok?
    requires a[..HeaderEnd(a)] == b[..HeaderEnd(b)]
    ensures a == b
  {
    DecodedIsTiling(a, hash, loads);
    DecodedIsTiling(b, hash, loads);
    SameInventory(a, b, loads);
    MembersCoverContent(a, hash, loads);
    MembersCoverContent(b, hash, loads);
    var fa, fb := ReadFrame(a, loads).value, ReadFrame(b, loads).value;
    SameRowsSameMembers(RowsRead(fa.items), fa.content, fb.content, hash,
                        Decoded(a, hash, loads).value, Decoded(b, hash, loads).value, |fa.items|);
  }
}
