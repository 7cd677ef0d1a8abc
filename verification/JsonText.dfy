/** A concrete JSON codec: the compact ASCII writer and a reader for the grammar, on the values a bundle header uses.
    Numbers with a fraction or exponent and raw non-ASCII text are not read. */
module JsonText {
  import opened Prelude

  datatype Json = Null | Bool(b: bool) | Number(n: int) | Text(s: string) | List(items: seq<Json>)
                | Object(members: seq<Member>)

  datatype Member = Member(key: string, value: Json)

  /** A value read from the front of a text, and what is left of the text. */
  datatype Read<+T> = Failed | Got(value: T, rest: string)

  // ----- characters

  predicate IsSpace(c: char) { c == ' ' || c == '\n' || c == '\r' || c == '\t' }

  predicate IsDigit(c: char) { '0' <= c <= '9' }

  function HexDigit(n: nat): (c: char)
    requires n < 16
    ensures HexValue(c) == Some(n)
  {
    if n < 10 then ('0' as int + n) as char else ('a' as int + n - 10) as char
  }

  function HexValue(c: char): (r: Option<nat>)
    ensures r.Some? ==> r.value < 16
  {
    if '0' <= c <= '9' then Some(c as int - '0' as int)
    else if 'a' <= c <= 'f' then Some(c as int - 'a' as int + 10)
    else if 'A' <= c <= 'F' then Some(c as int - 'A' as int + 10)
    else None
  }

  function Hex4(n: nat): (r: string)
    requires n < 0x10000
    ensures |r| == 4
  {
    [HexDigit(n / 4096), HexDigit(n / 256 % 16), HexDigit(n / 16 % 16), HexDigit(n % 16)]
  }

  function Unicode(n: nat): (r: string)
    requires n < 0x10000
    ensures |r| == 6 && r[0] == '\\' && r[1] == 'u' && r[2..] == Hex4(n)
  {
    ['\\', 'u'] + Hex4(n)
  }

  /** Four hexadecimal digits at the front of `s`. */
  function ReadHex4(s: string): Read<nat> {
    if |s| < 4 then Failed else
      var a, b, c, d := HexValue(s[0]), HexValue(s[1]), HexValue(s[2]), HexValue(s[3]);
      if a.None? || b.None? || c.None? || d.None? then Failed
      else Got(a.value * 4096 + b.value * 256 + c.value * 16 + d.value, s[4..])
  }

  lemma ReadHex4Hex4(n: nat, rest: string)
    requires n < 0x10000
    ensures ReadHex4(Hex4(n) + rest) == Got(n, rest)
  {
    assert (Hex4(n) + rest)[4..] == rest;
    HexPlaces(n);
  }

  lemma HexPlaces(n: nat)
    ensures n == n / 4096 * 4096 + n / 256 % 16 * 256 + n / 16 % 16 * 16 + n % 16
  {
    assert n / 256 == n / 4096 * 16 + n / 256 % 16;
    assert n / 16 == n / 256 * 16 + n / 16 % 16;
  }

  /** How the writer spells one character inside quotes; everything outside printable ASCII is escaped. */
  function EscapeChar(c: char): (r: string)
    ensures r != []
  {
    if c == '\"' then "\\\""
    else if c == '\\' then "\\\\"
    else if c == '\n' then "\\n"
    else if c == '\r' then "\\r"
    else if c == '\t' then "\\t"
    else if c as int == 12 then "\\f"
    else if c as int == 8 then "\\b"
    else if ' ' <= c <= '~' then [c]
    else if (c as int) < 0x10000 then Unicode(c as int)
    else Unicode(HighSurrogate(c)) + Unicode(LowSurrogate(c))
  }

  function HighSurrogate(c: char): (r: nat)
    requires c as int >= 0x10000
    ensures 0xD800 <= r < 0xDC00
  {
    0xD800 + (c as int - 0x10000) / 1024
  }

  function LowSurrogate(c: char): (r: nat)
    requires c as int >= 0x10000
    ensures 0xDC00 <= r < 0xE000
  {
    0xDC00 + (c as int - 0x10000) % 1024
  }

  /** One character of a quoted text, which must not be at its closing quote. */
  function ReadChar(s: string): (r: Read<char>)
    ensures r.Got? ==> |r.rest| < |s|
  {
    if s == [] || s[0] == '\"' || (s[0] as int) < 32 || s[0] as int > 127 then Failed
    else if s[0] != '\\' then Got(s[0], s[1..])
    else if |s| < 2 then Failed
    else
      match s[1]
      case '\"' => Got('\"', s[2..])
      case '\\' => Got('\\', s[2..])
      case '/' => Got('/', s[2..])
      case 'n' => Got('\n', s[2..])
      case 'r' => Got('\r', s[2..])
      case 't' => Got('\t', s[2..])
      case 'f' => Got(12 as char, s[2..])
      case 'b' => Got(8 as char, s[2..])
      case 'u' => ReadUnicode(s[2..])
      case _ => Failed
  }

  function ReadUnicode(s: string): (r: Read<char>)
    ensures r.Got? ==> |r.rest| < |s|
  {
    match ReadHex4(s)
    case Failed => Failed
    case Got(high, rest) =>
      if high < 0xD800 || 0xE000 <= high then Got(high as char, rest)
      else if high < 0xDC00 && |rest| >= 2 && rest[0] == '\\' && rest[1] == 'u' then
        match ReadHex4(rest[2..])
        case Failed => Failed
        case Got(low, rest') =>
          if 0xDC00 <= low < 0xE000 then
            Got((0x10000 + (high - 0xD800) * 1024 + (low - 0xDC00)) as char, rest')
          else Failed
      else Failed
  }

  lemma ReadCharEscape(c: char, rest: string)
    ensures ReadChar(EscapeChar(c) + rest) == Got(c, rest)
  {
    var text := EscapeChar(c) + rest;
    if c != '\"' && c != '\\' && ' ' <= c <= '~' {
      assert text[1..] == rest;
    } else if c == '\"' || c == '\\' || c == '\n' || c == '\r' || c == '\t' || c as int == 12 || c as int == 8 {
      assert text[2..] == rest;
    } else if (c as int) < 0x10000 {
      assert text[2..] == Unicode(c as int)[2..] + rest;
      ReadHex4Hex4(c as int, rest);
    } else {
      SurrogatePair(c, rest);
    }
  }

  lemma SurrogatePair(c: char, rest: string)
    requires c as int >= 0x10000
    ensures ReadChar(EscapeChar(c) + rest) == Got(c, rest)
  {
    var high, low := HighSurrogate(c), LowSurrogate(c);
    var text := Unicode(high) + Unicode(low) + rest;
    assert text[2..] == Hex4(high) + (Unicode(low) + rest);
    ReadPair(c, rest);
  }

  lemma ReadPair(c: char, rest: string)
    requires c as int >= 0x10000
    ensures ReadUnicode(Hex4(HighSurrogate(c)) + (Unicode(LowSurrogate(c)) + rest)) == Got(c, rest)
  {
    var low := LowSurrogate(c);
    var tail := Unicode(low) + rest;
    ReadHex4Hex4(HighSurrogate(c), tail);
    assert tail[2..] == Hex4(low) + rest;
    ReadHex4Hex4(low, rest);
  }

  // ----- texts

  function Escape(s: string): string {
    if s == [] then [] else EscapeChar(s[0]) + Escape(s[1..])
  }

  function Quote(s: string): string {
    "\"" + Escape(s) + "\""
  }

  /** The characters up to the closing quote. */
  function ReadChars(s: string): (r: Read<string>)
    ensures r.Got? ==> |r.rest| < |s|
    decreases |s|
  {
    if s == [] then Failed
    else if s[0] == '\"' then Got([], s[1..])
    else
      match ReadChar(s)
      case Failed => Failed
      case Got(c, rest) =>
        match ReadChars(rest)
        case Failed => Failed
        case Got(more, rest') => Got([c] + more, rest')
  }

  /** One more character in front. */
  ghost function Ahead(c: char, read: Read<string>): Read<string> {
    match read
    case Failed => Failed
    case Got(s, rest) => Got([c] + s, rest)
  }

  lemma ReadCharsStep(c: char, tail: string)
    ensures ReadChars(EscapeChar(c) + tail) == Ahead(c, ReadChars(tail))
  {
    ReadCharEscape(c, tail);
    EscapeNotQuote(c);
    hide EscapeChar, ReadChar;
    assert (EscapeChar(c) + tail)[0] == EscapeChar(c)[0];
  }

  lemma {:induction false} ReadCharsEscape(s: string, rest: string)
    ensures ReadChars(Escape(s) + "\"" + rest) == Got(s, rest)
  {
    hide EscapeChar, ReadChar;
    if s == [] {
      assert (Escape(s) + "\"" + rest)[1..] == rest;
    } else {
      var tail := Escape(s[1..]) + "\"" + rest;
      assert Escape(s) + "\"" + rest == EscapeChar(s[0]) + tail;
      ReadCharsEscape(s[1..], rest);
      ReadCharsStep(s[0], tail);
      hide ReadChars, Escape;
      assert [s[0]] + s[1..] == s;
    }
  }

  lemma EscapeNotQuote(c: char)
    ensures EscapeChar(c)[0] != '\"'
  {}

  function ReadText(s: string): (r: Read<string>)
    ensures r.Got? ==> |r.rest| < |s|
  {
    if s != [] && s[0] == '\"' then ReadChars(s[1..]) else Failed
  }

  lemma ReadTextQuote(s: string, rest: string)
    ensures ReadText(Quote(s) + rest) == Got(s, rest)
  {
    assert (Quote(s) + rest)[1..] == Escape(s) + "\"" + rest;
    ReadCharsEscape(s, rest);
  }

  // ----- numbers

  function DigitChar(d: nat): (c: char)
    requires d < 10
    ensures IsDigit(c)
  {
    ('0' as int + d) as char
  }

  function Digits(n: nat): (r: string)
    ensures r != [] && forall i | 0 <= i < |r| :: IsDigit(r[i])
    ensures n > 0 ==> r[0] != '0'
  {
    if n < 10 then [DigitChar(n)] else Digits(n / 10) + [DigitChar(n % 10)]
  }

  function ReadDigits(s: string, value: nat): (r: Read<nat>)
    ensures r.Got? && |r.rest| <= |s|
  {
    if s != [] && IsDigit(s[0]) then ReadDigits(s[1..], value * 10 + (s[0] as int - '0' as int)) else Got(value, s)
  }

  /** An unsigned integer: a lone zero or digits without a leading zero. */
  function ReadNat(s: string): (r: Read<nat>)
    ensures r.Got? ==> |r.rest| < |s|
  {
    if s == [] || !IsDigit(s[0]) then Failed
    else if s[0] == '0' then Got(0, s[1..])
    else ReadDigits(s[1..], s[0] as int - '0' as int)
  }

  function WriteInt(n: int): string {
    if n < 0 then "-" + Digits(-n) else Digits(n)
  }

  function ReadInt(s: string): (r: Read<int>)
    ensures r.Got? ==> |r.rest| < |s|
  {
    var negative := s != [] && s[0] == '-';
    match ReadNat(if negative then s[1..] else s)
    case Failed => Failed
    case Got(n, rest) =>
      if rest != [] && (rest[0] == '.' || rest[0] == 'e' || rest[0] == 'E') then Failed
      else
        Got(if negative then 0 - n else n, rest)
  }

  /** What may follow a number without being taken for part of it. */
  predicate EndsNumber(rest: string) {
    rest == [] || (!IsDigit(rest[0]) && rest[0] != '.' && rest[0] != 'e' && rest[0] != 'E')
  }

  lemma {:induction false} ReadDigitsDigits(n: nat, rest: string)
    ensures ReadDigits(Digits(n) + rest, 0) == ReadDigits(rest, n)
  {
    if n < 10 {
      assert (Digits(n) + rest)[1..] == rest;
    } else {
      var tail := [DigitChar(n % 10)] + rest;
      assert Digits(n) + rest == Digits(n / 10) + tail;
      ReadDigitsDigits(n / 10, tail);
      assert tail[1..] == rest;
    }
  }

  lemma ReadNatDigits(n: nat, rest: string)
    requires rest == [] || !IsDigit(rest[0])
    ensures ReadNat(Digits(n) + rest) == Got(n, rest)
  {
    var text := Digits(n) + rest;
    ReadDigitsDigits(n, rest);
    if n == 0 {
      assert text[1..] == rest;
    } else {
      assert text[0] == Digits(n)[0];
    }
  }

  lemma ReadIntWriteInt(n: int, rest: string)
    requires EndsNumber(rest)
    ensures ReadInt(WriteInt(n) + rest) == Got(n, rest)
  {
    if n < 0 {
      ReadNegative(0 - n, rest);
    } else {
      ReadNatDigits(n, rest);
      NoSign(n, rest);
    }
  }

  lemma ReadNegative(n: nat, rest: string)
    requires EndsNumber(rest)
    ensures ReadInt("-" + Digits(n) + rest) == Got(0 - n, rest)
  {
    ReadNatDigits(n, rest);
    assert ("-" + Digits(n) + rest)[1..] == Digits(n) + rest;
  }

  lemma NoSign(n: nat, rest: string)
    ensures Digits(n) + rest != [] && (Digits(n) + rest)[0] != '-'
  {
    assert IsDigit(Digits(n)[0]);
  }

  // ----- values

  function Write(j: Json): string {
    match j
    case Null => "null"
    case Bool(b) => if b then "true" else "false"
    case Number(n) => WriteInt(n)
    case Text(s) => Quote(s)
    case List(items) => "[" + WriteItems(items) + "]"
    case Object(members) => "{" + WriteMembers(members) + "}"
  }

  function WriteItems(items: seq<Json>): string {
    if items == [] then []
    else if |items| == 1 then Write(items[0])
    else Write(items[0]) + "," + WriteItems(items[1..])
  }

  function WriteMembers(members: seq<Member>): string {
    if members == [] then []
    else if |members| == 1 then WriteMember(members[0])
    else WriteMember(members[0]) + "," + WriteMembers(members[1..])
  }

  function WriteMember(m: Member): string {
    Quote(m.key) + ":" + Write(m.value)
  }

  function SkipSpace(s: string): (r: string)
    ensures |r| <= |s|
    ensures s == [] || !IsSpace(s[0]) ==> r == s
  {
    if s != [] && IsSpace(s[0]) then SkipSpace(s[1..]) else s
  }

  function ReadValue(text: string): (r: Read<Json>)
    ensures r.Got? ==> |r.rest| < |text|
    decreases |text|, 1
  {
    var s := SkipSpace(text);
    if s == [] then Failed
    else
      match s[0]
      case 'n' => if "null" <= s then Got(Null, s[4..]) else Failed
      case 't' => if "true" <= s then Got(Bool(true), s[4..]) else Failed
      case 'f' => if "false" <= s then Got(Bool(false), s[5..]) else Failed
      case '\"' => (match ReadText(s) case Failed => Failed case Got(t, rest) => Got(Text(t), rest))
      case '[' => ReadList(SkipSpace(s[1..]))
      case '{' => ReadObject(SkipSpace(s[1..]))
      case _ => (match ReadInt(s) case Failed => Failed case Got(n, rest) => Got(Number(n), rest))
  }

  function ReadList(s: string): (r: Read<Json>)
    ensures r.Got? ==> |r.rest| < |s|
    decreases |s|, 3
  {
    if s != [] && s[0] == ']' then Got(List([]), s[1..])
    else (match ReadItems(s) case Failed => Failed case Got(items, rest) => Got(List(items), rest))
  }

  function ReadObject(s: string): (r: Read<Json>)
    ensures r.Got? ==> |r.rest| < |s|
    decreases |s|, 3
  {
    if s != [] && s[0] == '}' then Got(Object([]), s[1..])
    else (match ReadMembers(s) case Failed => Failed case Got(members, rest) => Got(Object(members), rest))
  }

  /** One or more values up to the closing bracket. */
  function ReadItems(s: string): (r: Read<seq<Json>>)
    ensures r.Got? ==> |r.rest| < |s|
    decreases |s|, 2
  {
    match ReadValue(s)
    case Failed => Failed
    case Got(first, rest) =>
      var t := SkipSpace(rest);
      if t == [] then Failed
      else if t[0] == ']' then Got([first], t[1..])
      else if t[0] != ',' then Failed
      else
        match ReadItems(t[1..])
        case Failed => Failed
        case Got(more, rest') => Got([first] + more, rest')
  }

  function ReadMembers(s: string): (r: Read<seq<Member>>)
    ensures r.Got? ==> |r.rest| < |s|
    decreases |s|, 2
  {
    match ReadMember(s)
    case Failed => Failed
    case Got(first, rest) =>
      var t := SkipSpace(rest);
      if t == [] then Failed
      else if t[0] == '}' then Got([first], t[1..])
      else if t[0] != ',' then Failed
      else
        match ReadMembers(SkipSpace(t[1..]))
        case Failed => Failed
        case Got(more, rest') => Got([first] + more, rest')
  }

  function ReadMember(s: string): (r: Read<Member>)
    ensures r.Got? ==> |r.rest| < |s|
    decreases |s|, 1
  {
    match ReadText(s)
    case Failed => Failed
    case Got(key, rest) =>
      var t := SkipSpace(rest);
      if t == [] || t[0] != ':' then Failed
      else
        match ReadValue(t[1..])
        case Failed => Failed
        case Got(value, rest') => Got(Member(key, value), rest')
  }

  // ----- the reader inverts the writer

  /** A written value starts with a character that decides how it is read. */
  lemma WriteStart(j: Json)
    ensures Write(j) != []
    ensures !IsSpace(Write(j)[0]) && Write(j)[0] != ']'
  {
    match j
    case Number(n) => assert IsDigit(Digits(if n < 0 then -n else n)[0]);
    case _ =>
  }

  lemma ItemsStart(items: seq<Json>, rest: string)
    requires items != []
    ensures WriteItems(items) + rest != []
    ensures !IsSpace((WriteItems(items) + rest)[0]) && (WriteItems(items) + rest)[0] != ']'
  {
    WriteStart(items[0]);
    assert (WriteItems(items) + rest)[0] == Write(items[0])[0];
  }

  lemma MembersStart(members: seq<Member>, rest: string)
    requires members != []
    ensures WriteMembers(members) + rest != [] && (WriteMembers(members) + rest)[0] == '\"'
  {
    assert Quote(members[0].key)[0] == '\"';
    assert WriteMember(members[0])[0] == '\"';
  }

  lemma ReadLiterals(rest: string)
    ensures ReadValue("null" + rest) == Got(Null, rest)
    ensures ReadValue("true" + rest) == Got(Bool(true), rest)
    ensures ReadValue("false" + rest) == Got(Bool(false), rest)
  {
    assert ("null" + rest)[4..] == rest && ("null" + rest)[..4] == "null";
    assert ("true" + rest)[4..] == rest && ("true" + rest)[..4] == "true";
    assert ("false" + rest)[5..] == rest && ("false" + rest)[..5] == "false";
  }

  lemma ReadNumber(n: int, rest: string)
    requires EndsNumber(rest)
    ensures ReadValue(WriteInt(n) + rest) == Got(Number(n), rest)
  {
    var s := WriteInt(n) + rest;
    assert s[0] == '-' || IsDigit(s[0]);
    ReadIntWriteInt(n, rest);
  }

  lemma ReadQuoted(t: string, rest: string)
    ensures ReadValue(Quote(t) + rest) == Got(Text(t), rest)
  {
    assert (Quote(t) + rest)[0] == '\"';
    ReadTextQuote(t, rest);
  }

  lemma ReadBracketed(open: string, body: string)
    requires open == "[" || open == "{"
    requires body != [] && !IsSpace(body[0])
    ensures ReadValue(open + body) == if open == "[" then ReadList(body) else ReadObject(body)
  {
    assert (open + body)[1..] == body;
  }

  lemma ListText(items: seq<Json>, rest: string)
    ensures Write(List(items)) + rest == "[" + (WriteItems(items) + ("]" + rest))
  {}

  lemma ObjectText(members: seq<Member>, rest: string)
    ensures Write(Object(members)) + rest == "{" + (WriteMembers(members) + ("}" + rest))
  {}

  lemma Reassociate(a: string, b: string, c: string, d: string)
    ensures a + b + c + d == a + (b + (c + d))
  {}

  lemma ItemsText(items: seq<Json>, rest: string)
    requires |items| > 1
    ensures WriteItems(items) + ("]" + rest) == Write(items[0]) + ("," + (WriteItems(items[1..]) + ("]" + rest)))
  {
    hide Write;
    var first, more := Write(items[0]), WriteItems(items[1..]);
    assert WriteItems(items) == first + "," + more;
    hide *;
    Reassociate(first, ",", more, "]" + rest);
  }

  lemma MembersText(members: seq<Member>, rest: string)
    requires |members| > 1
    ensures WriteMembers(members) + ("}" + rest)
            == WriteMember(members[0]) + ("," + (WriteMembers(members[1..]) + ("}" + rest)))
  {
    hide WriteMember;
    var first, more := WriteMember(members[0]), WriteMembers(members[1..]);
    assert WriteMembers(members) == first + "," + more;
    hide *;
    Reassociate(first, ",", more, "}" + rest);
  }

  /** Whatever the writer writes, the reader reads back, leaving what follows untouched. */
  lemma {:induction false} ReadWrite(j: Json, rest: string)
    requires EndsNumber(rest)
    ensures ReadValue(Write(j) + rest) == Got(j, rest)
    decreases j
  {
    match j
    case Null => ReadLiterals(rest);
    case Bool(b) => ReadLiterals(rest);
    case Number(n) => ReadNumber(n, rest);
    case Text(t) => ReadQuoted(t, rest);
    case List(items) =>
      ReadWriteList(items, rest);
      ListText(items, rest);
    case Object(members) =>
      ReadWriteObject(members, rest);
      ObjectText(members, rest);
  }

  lemma {:induction false} ReadWriteList(items: seq<Json>, rest: string)
    ensures ReadValue("[" + (WriteItems(items) + ("]" + rest))) == Got(List(items), rest)
    decreases items, 1
  {
    var tail := "]" + rest;
    var body := WriteItems(items) + tail;
    if items == [] {
      assert body == tail && body[0] == ']' && body[1..] == rest;
    } else {
      ItemsStart(items, tail);
      ReadWriteItems(items, rest);
    }
    ReadBracketed("[", body);
  }

  lemma {:induction false} ReadWriteObject(members: seq<Member>, rest: string)
    ensures ReadValue("{" + (WriteMembers(members) + ("}" + rest))) == Got(Object(members), rest)
    decreases members, 1
  {
    var tail := "}" + rest;
    var body := WriteMembers(members) + tail;
    if members == [] {
      assert body == tail && body[1..] == rest;
    } else {
      MembersStart(members, tail);
      ReadWriteMembers(members, rest);
    }
    ReadBracketed("{", body);
  }

  /** Reading the first item and its separator leaves the remaining items. */
  lemma ItemsStep(text: string, first: Json, separator: char, more: string)
    requires ReadValue(text) == Got(first, [separator] + more)
    requires separator == ',' || separator == ']'
    ensures ReadItems(text) ==
            if separator == ']' then Got([first], more)
            else match ReadItems(more) { case Failed => Failed case Got(items, rest) => Got([first] + items, rest) }
  {
    assert ([separator] + more)[1..] == more;
  }

  lemma {:induction false} ReadWriteItems(items: seq<Json>, rest: string)
    requires items != []
    ensures ReadItems(WriteItems(items) + ("]" + rest)) == Got(items, rest)
    decreases items, 0
  {
    hide ReadItems, ReadValue, Write;
    if |items| == 1 {
      assert WriteItems(items) == Write(items[0]);
      ReadWrite(items[0], "]" + rest);
      ItemsStep(WriteItems(items) + ("]" + rest), items[0], ']', rest);
      assert items == [items[0]];
    } else {
      var more := WriteItems(items[1..]) + ("]" + rest);
      ReadWrite(items[0], "," + more);
      ReadWriteItems(items[1..], rest);
      ItemsText(items, rest);
      ItemsStep(Write(items[0]) + ("," + more), items[0], ',', more);
      assert items == [items[0]] + items[1..];
    }
  }

  lemma MembersStep(text: string, first: Member, separator: char, more: string)
    requires ReadMember(text) == Got(first, [separator] + more)
    requires separator == ',' || separator == '}'
    requires separator == ',' ==> more != [] && !IsSpace(more[0])
    ensures ReadMembers(text) ==
            if separator == '}' then Got([first], more)
            else match ReadMembers(more) { case Failed => Failed case Got(members, rest) => Got([first] + members, rest) }
  {
    assert ([separator] + more)[1..] == more;
  }

  lemma {:induction false} ReadWriteMembers(members: seq<Member>, rest: string)
    requires members != []
    ensures ReadMembers(WriteMembers(members) + ("}" + rest)) == Got(members, rest)
    decreases members, 0
  {
    hide ReadMembers, ReadMember, WriteMember, Write;
    if |members| == 1 {
      assert WriteMembers(members) == WriteMember(members[0]);
      ReadWriteMember(members[0], "}" + rest);
      MembersStep(WriteMembers(members) + ("}" + rest), members[0], '}', rest);
      assert members == [members[0]];
    } else {
      var more := WriteMembers(members[1..]) + ("}" + rest);
      MembersStart(members[1..], "}" + rest);
      ReadWriteMember(members[0], "," + more);
      ReadWriteMembers(members[1..], rest);
      MembersText(members, rest);
      MembersStep(WriteMember(members[0]) + ("," + more), members[0], ',', more);
      assert members == [members[0]] + members[1..];
    }
  }

  lemma {:induction false} ReadWriteMember(m: Member, rest: string)
    requires EndsNumber(rest)
    ensures ReadMember(WriteMember(m) + rest) == Got(m, rest)
    decreases m
  {
    var value := Write(m.value) + rest;
    var tail := ":" + value;
    assert WriteMember(m) + rest == Quote(m.key) + tail && tail[1..] == value;
    ReadTextQuote(m.key, tail);
    ReadWrite(m.value, rest);
  }

  // ----- bytes

  /** The writer's output as bytes; it is ASCII (`WriteIsAscii`). */
  function ToBytes(s: string): Bytes
    requires forall i | 0 <= i < |s| :: (s[i] as int) < 128
  {
    seq(|s|, i requires 0 <= i < |s| => s[i] as int)
  }

  function FromBytes(b: Bytes): Option<string> {
    if forall i | 0 <= i < |b| :: b[i] < 128 then
      Some(seq(|b|, i requires 0 <= i < |b| && b[i] < 128 => b[i] as char))
    else None
  }

  ghost predicate Ascii(s: string) {
    forall i | 0 <= i < |s| :: (s[i] as int) < 128
  }

  lemma {:induction false} EscapeIsAscii(s: string)
    ensures Ascii(Escape(s))
  {
    if s != [] {
      EscapeIsAscii(s[1..]);
      EscapeCharIsAscii(s[0]);
    }
  }

  lemma HexIsAscii(n: nat)
    requires n < 0x10000
    ensures Ascii(Hex4(n))
  {
    assert forall d: nat | d < 16 :: (HexDigit(d) as int) < 128;
  }

  lemma EscapeCharIsAscii(c: char)
    ensures Ascii(EscapeChar(c))
  {
    if (c as int) < 0x10000 {
      HexIsAscii(c as int);
    } else {
      var v := c as int - 0x10000;
      HexIsAscii(0xD800 + v / 1024);
      HexIsAscii(0xDC00 + v % 1024);
    }
  }

  lemma {:induction false} WriteIsAscii(j: Json)
    ensures Ascii(Write(j))
    decreases j
  {
    match j
    case Text(s) => EscapeIsAscii(s);
    case List(items) => ItemsAreAscii(items);
    case Object(members) => MembersAreAscii(members);
    case Number(n) =>
      assert forall c: char | IsDigit(c) :: (c as int) < 128;
      assert Ascii(Digits(if n < 0 then -n else n));
    case _ =>
  }

  lemma {:induction false} ItemsAreAscii(items: seq<Json>)
    ensures Ascii(WriteItems(items))
    decreases items
  {
    if items != [] {
      WriteIsAscii(items[0]);
      ItemsAreAscii(items[1..]);
    }
  }

  lemma {:induction false} MembersAreAscii(members: seq<Member>)
    ensures Ascii(WriteMembers(members))
    decreases members
  {
    if members != [] {
      EscapeIsAscii(members[0].key);
      WriteIsAscii(members[0].value);
      MembersAreAscii(members[1..]);
    }
  }

  /** `json.dumps(...).encode()` for a value whose members are already in key order. */
  function Dumps(j: Json): Bytes {
    WriteIsAscii(j);
    ToBytes(Write(j))
  }

  /** `json.loads`, on the grammar above. */
  function Loads(b: Bytes): Option<Json> {
    match FromBytes(b)
    case None => None
    case Some(text) =>
      match ReadValue(text)
      case Failed => None
      case Got(j, rest) => if SkipSpace(rest) == [] then Some(j) else None
  }

  lemma LoadsDumps(j: Json)
    ensures Loads(Dumps(j)) == Some(j)
  {
    WriteIsAscii(j);
    var text := Write(j);
    assert FromBytes(ToBytes(text)).Some? && FromBytes(ToBytes(text)).value == text;
    assert text + [] == text;
    ReadWrite(j, []);
  }
}
