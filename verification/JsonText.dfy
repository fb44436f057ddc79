// JSON documents and their text (RFC 8259), as `JSON.stringify` and `JSON.parse`
// treat them in apps/daemon/console/configuration-model.js: quoting, whole
// numbers, arrays and objects, and the proof that the text can be read back in
// one way only.

module JsonText {
  import opened Numerals
  import opened TextSearch
  import opened Wrappers

  /** The whole numbers a JavaScript number holds exactly. */
  type SafeInteger = n: int | -9007199254740991 <= n <= 9007199254740991

  datatype Json =
    | Null
    | Boolean(flag: bool)
    | Number(number: SafeInteger)
    | Text(text: string)
    | Array(items: seq<Json>)
    | Object(members: seq<Member>)

  datatype Member = Member(key: string, value: Json)

  // --- Writing ---

  function HexDigit(n: int): (digit: char)
    requires 0 <= n < 16
  {
    "0123456789abcdef"[n]
  }

  /** `JSON.stringify`'s escape of one character. */
  function QuoteChar(c: char): (quoted: string)
    ensures quoted != []
  {
    if c == '\"' then "\\\""
    else if c == '\\' then "\\\\"
    else if c as int == 8 then "\\b"
    else if c == '\t' then "\\t"
    else if c == '\n' then "\\n"
    else if c as int == 12 then "\\f"
    else if c == '\r' then "\\r"
    else if c as int < 0x20 then ['\\', 'u', '0', '0', HexDigit(c as int / 16), HexDigit(c as int % 16)]
    else [c]
  }

  function QuoteChars(text: string): string {
    if text == [] then [] else QuoteChar(text[0]) + QuoteChars(text[1..])
  }

  function Quote(text: string): string {
    "\"" + QuoteChars(text) + "\""
  }

  function Decimal(n: int): string {
    if n < 0 then "-" + Digits(-n) else Digits(n)
  }

  /** JavaScript's `parts.join(",")`. */
  function Join(parts: seq<string>): string {
    if parts == [] then ""
    else if |parts| == 1 then parts[0]
    else parts[0] + "," + Join(parts[1..])
  }

  function Stringify(value: Json): string
    decreases value, 1
  {
    match value
    case Null => "null"
    case Boolean(flag) => if flag then "true" else "false"
    case Number(number) => Decimal(number)
    case Text(text) => Quote(text)
    case Array(items) => "[" + Join(StringifyItems(items)) + "]"
    case Object(members) => "{" + Join(StringifyMembers(members)) + "}"
  }

  function StringifyItems(items: seq<Json>): (parts: seq<string>)
    ensures |parts| == |items|
    decreases items, 0
  {
    if items == [] then [] else [Stringify(items[0])] + StringifyItems(items[1..])
  }

  function StringifyMembers(members: seq<Member>): (parts: seq<string>)
    ensures |parts| == |members|
    decreases members, 0
  {
    if members == [] then []
    else [Quote(members[0].key) + ":" + Stringify(members[0].value)] + StringifyMembers(members[1..])
  }

  // --- Reading back ---

  datatype Parsed<+T> = Parsed(value: T, rest: string)

  function HexValue(c: char): (value: Option<int>)
    ensures value.Some? ==> 0 <= value.value < 16
  {
    if '0' <= c <= '9' then Some(c as int - '0' as int)
    else if 'a' <= c <= 'f' then Some(c as int - 'a' as int + 10)
    else if 'A' <= c <= 'F' then Some(c as int - 'A' as int + 10)
    else None
  }

  /** The character after a backslash, and how many characters the escape takes. */
  function ReadEscape(text: string): (read: Option<Parsed<char>>)
    requires text != [] && text[0] == '\\'
    ensures read.Some? ==> |read.value.rest| < |text|
  {
    if |text| < 2 then None
    else if text[1] == '\"' then Some(Parsed('\"', text[2..]))
    else if text[1] == '\\' then Some(Parsed('\\', text[2..]))
    else if text[1] == '/' then Some(Parsed('/', text[2..]))
    else if text[1] == 'b' then Some(Parsed(8 as char, text[2..]))
    else if text[1] == 't' then Some(Parsed('\t', text[2..]))
    else if text[1] == 'n' then Some(Parsed('\n', text[2..]))
    else if text[1] == 'f' then Some(Parsed(12 as char, text[2..]))
    else if text[1] == 'r' then Some(Parsed('\r', text[2..]))
    else if text[1] == 'u' && |text| >= 6 then
      match (HexValue(text[2]), HexValue(text[3]), HexValue(text[4]), HexValue(text[5]))
      case (Some(a), Some(b), Some(c), Some(d)) =>
        var code := a * 4096 + b * 256 + c * 16 + d;
        if 0xD800 <= code < 0xE000 then None else Some(Parsed(code as char, text[6..]))
      case _ => None
    else None
  }

  /** Reads string characters up to and including the closing quote. */
  function ReadString(text: string): (read: Option<Parsed<string>>)
    ensures read.Some? ==> |read.value.rest| < |text|
    decreases |text|
  {
    if text == [] then None
    else if text[0] == '\"' then Some(Parsed("", text[1..]))
    else if text[0] == '\\' then
      match ReadEscape(text)
      case None => None
      case Some(escaped) =>
        (match ReadString(escaped.rest)
         case None => None
         case Some(after) => Some(Parsed([escaped.value] + after.value, after.rest)))
    else if text[0] as int < 0x20 then None
    else
      match ReadString(text[1..])
      case None => None
      case Some(after) => Some(Parsed([text[0]] + after.value, after.rest))
  }

  /** The length of the longest run of leading digits. */
  function DigitCount(text: string): (count: nat)
    ensures count <= |text|
    ensures forall i :: 0 <= i < count ==> IsDigit(text[i])
  {
    if text == [] || !IsDigit(text[0]) then 0
    else
      var others := DigitCount(text[1..]);
      assert forall i :: 1 <= i < 1 + others ==> text[i] == text[1..][i - 1];
      1 + others
  }

  const MAX_SAFE_INTEGER := 9007199254740991

  function ReadUnsigned(text: string): (read: Option<Parsed<nat>>)
    ensures read.Some? ==> |read.value.rest| < |text| && read.value.value <= MAX_SAFE_INTEGER
  {
    var count := DigitCount(text);
    if count == 0 then None
    else
      var size := DigitsValue(text[..count]);
      if size > MAX_SAFE_INTEGER then None else Some(Parsed(size, text[count..]))
  }

  function ReadNumber(text: string): (read: Option<Parsed<Json>>)
    ensures read.Some? ==> |read.value.rest| < |text|
  {
    if text != [] && text[0] == '-' then
      match ReadUnsigned(text[1..])
      case None => None
      case Some(size) => Some(Parsed(Number(0 - size.value), size.rest))
    else
      match ReadUnsigned(text)
      case None => None
      case Some(size) => Some(Parsed(Number(size.value), size.rest))
  }

  function ReadLiteral(text: string, literal: string, value: Json): (read: Option<Parsed<Json>>)
    requires literal != []
    ensures read.Some? ==> |read.value.rest| < |text|
  {
    if StartsWith(text, literal) then Some(Parsed(value, text[|literal|..])) else None
  }

  function ReadText(text: string): (read: Option<Parsed<Json>>)
    requires text != []
    ensures read.Some? ==> |read.value.rest| < |text|
  {
    match ReadString(text[1..])
    case None => None
    case Some(read) => Some(Parsed(Text(read.value), read.rest))
  }

  function ReadArray(text: string): (read: Option<Parsed<Json>>)
    requires text != []
    ensures read.Some? ==> |read.value.rest| < |text|
    decreases |text|, 0
  {
    if StartsWith(text, "[]") then Some(Parsed(Array([]), text[2..]))
    else
      match ReadItems(text[1..])
      case None => None
      case Some(read) => Some(Parsed(Array(read.value), read.rest))
  }

  function ReadObject(text: string): (read: Option<Parsed<Json>>)
    requires text != []
    ensures read.Some? ==> |read.value.rest| < |text|
    decreases |text|, 0
  {
    if StartsWith(text, "{}") then Some(Parsed(Object([]), text[2..]))
    else
      match ReadMembers(text[1..])
      case None => None
      case Some(read) => Some(Parsed(Object(read.value), read.rest))
  }

  function ReadValue(text: string): (read: Option<Parsed<Json>>)
    ensures read.Some? ==> |read.value.rest| < |text|
    decreases |text|, 2
  {
    if text == [] then None else ReadFrom(text[0], text)
  }

  /** The first character tells what kind of value stands there. */
  function ReadFrom(first: char, text: string): (read: Option<Parsed<Json>>)
    requires text != [] && text[0] == first
    ensures read.Some? ==> |read.value.rest| < |text|
    decreases |text|, 1
  {
    if first == 'n' then ReadLiteral(text, "null", Null)
    else if first == 't' then ReadLiteral(text, "true", Boolean(true))
    else if first == 'f' then ReadLiteral(text, "false", Boolean(false))
    else if first == '\"' then ReadText(text)
    else if first == '[' then ReadArray(text)
    else if first == '{' then ReadObject(text)
    else ReadNumber(text)
  }

  /** Reads one or more array items and the closing bracket. */
  function ReadItems(text: string): (read: Option<Parsed<seq<Json>>>)
    ensures read.Some? ==> |read.value.rest| < |text|
    decreases |text|, 3
  {
    match ReadValue(text)
    case None => None
    case Some(first) =>
      if first.rest == [] then None
      else if first.rest[0] == ']' then Some(Parsed([first.value], first.rest[1..]))
      else if first.rest[0] == ',' then
        match ReadItems(first.rest[1..])
        case None => None
        case Some(others) => Some(Parsed([first.value] + others.value, others.rest))
      else None
  }

  function ReadMember(text: string): (read: Option<Parsed<Member>>)
    ensures read.Some? ==> |read.value.rest| < |text|
    decreases |text|, 3
  {
    if text == [] || text[0] != '\"' then None
    else
      match ReadString(text[1..])
      case None => None
      case Some(key) =>
        if key.rest == [] || key.rest[0] != ':' then None
        else
          match ReadValue(key.rest[1..])
          case None => None
          case Some(value) => Some(Parsed(Member(key.value, value.value), value.rest))
  }

  /** Reads one or more object members and the closing brace. */
  function ReadMembers(text: string): (read: Option<Parsed<seq<Member>>>)
    ensures read.Some? ==> |read.value.rest| < |text|
    decreases |text|, 4
  {
    match ReadMember(text)
    case None => None
    case Some(first) =>
      if first.rest == [] then None
      else if first.rest[0] == '}' then Some(Parsed([first.value], first.rest[1..]))
      else if first.rest[0] == ',' then
        match ReadMembers(first.rest[1..])
        case None => None
        case Some(others) => Some(Parsed([first.value] + others.value, others.rest))
      else None
  }

  // --- Unique readability ---

  predicate HasShortEscape(c: char) {
    c == '\"' || c == '\\' || c as int == 8 || c == '\t' || c == '\n' || c as int == 12 || c == '\r'
  }

  lemma ShortEscapeReadsBack(c: char, after: string)
    requires HasShortEscape(c)
    ensures QuoteChar(c)[0] == '\\' && ReadEscape(QuoteChar(c) + after) == Some(Parsed(c, after))
  {
    var text := QuoteChar(c) + after;
    assert text[2..] == after && text[1] == QuoteChar(c)[1];
  }

  lemma ControlEscapeReadsBack(c: char, after: string)
    requires !HasShortEscape(c) && c as int < 0x20
    ensures QuoteChar(c)[0] == '\\' && ReadEscape(QuoteChar(c) + after) == Some(Parsed(c, after))
  {
    var text := QuoteChar(c) + after;
    var high, low := c as int / 16, c as int % 16;
    assert text[0] == '\\' && text[1] == 'u' && text[2] == '0' && text[3] == '0';
    assert text[4] == HexDigit(high) && text[5] == HexDigit(low);
    assert HexValue(HexDigit(high)) == Some(high) && HexValue(HexDigit(low)) == Some(low);
    assert text[6..] == after;
  }

  lemma QuotedCharReadsBack(c: char, after: string)
    requires ReadString(after).Some?
    ensures ReadString(QuoteChar(c) + after) ==
              Some(Parsed([c] + ReadString(after).value.value, ReadString(after).value.rest))
  {
    var text := QuoteChar(c) + after;
    if HasShortEscape(c) {
      ShortEscapeReadsBack(c, after);
      assert text[0] == QuoteChar(c)[0];
    } else if c as int < 0x20 {
      ControlEscapeReadsBack(c, after);
      assert text[0] == QuoteChar(c)[0];
    } else {
      assert text[1..] == after && text[0] == c;
    }
  }

  lemma {:induction false} QuotedTextReadsBack(text: string, rest: string)
    ensures ReadString(QuoteChars(text) + "\"" + rest) == Some(Parsed(text, rest))
  {
    if text == [] {
      assert (QuoteChars(text) + "\"" + rest)[1..] == rest;
    } else {
      QuotedTextReadsBack(text[1..], rest);
      var after := QuoteChars(text[1..]) + "\"" + rest;
      QuotedCharReadsBack(text[0], after);
      assert QuoteChars(text) + "\"" + rest == QuoteChar(text[0]) + after;
      assert [text[0]] + text[1..] == text;
    }
  }

  /** `rest` cannot be mistaken for more digits of the number before it. */
  predicate EndsNumber(rest: string) {
    rest == [] || !IsDigit(rest[0])
  }

  lemma {:induction false} DigitCountStopsAtRest(digits: string, rest: string)
    requires AreDigits(digits)
    requires EndsNumber(rest)
    ensures DigitCount(digits + rest) == |digits|
  {
    if digits == [] {
      assert digits + rest == rest;
    } else {
      assert (digits + rest)[1..] == digits[1..] + rest;
      DigitCountStopsAtRest(digits[1..], rest);
    }
  }

  lemma UnsignedReadsBack(size: nat, rest: string)
    requires size <= MAX_SAFE_INTEGER && EndsNumber(rest)
    ensures ReadUnsigned(Digits(size) + rest) == Some(Parsed(size, rest))
  {
    var digits, text := Digits(size), Digits(size) + rest;
    DigitCountStopsAtRest(digits, rest);
    DigitsReadBack(size);
    assert text[..|digits|] == digits;
    assert text[|digits|..] == rest;
  }

  lemma SignReadsBack(digits: string, size: nat, rest: string)
    requires digits != [] && IsDigit(digits[0])
    requires size <= MAX_SAFE_INTEGER && ReadUnsigned(digits + rest) == Some(Parsed(size, rest))
    ensures ReadNumber(digits + rest) == Some(Parsed(Number(size), rest))
    ensures ReadNumber("-" + digits + rest) == Some(Parsed(Number(0 - size), rest))
  {
    assert (digits + rest)[0] == digits[0];
    assert ("-" + digits + rest)[1..] == digits + rest;
  }

  lemma NumberReadsBack(number: SafeInteger, rest: string)
    requires EndsNumber(rest)
    ensures ReadNumber(Decimal(number) + rest) == Some(Parsed(Number(number), rest))
  {
    var size: nat := if number < 0 then 0 - number else number;
    var digits := Digits(size);
    UnsignedReadsBack(size, rest);
    SignReadsBack(digits, size, rest);
  }

  lemma NumberValueReadsBack(number: SafeInteger, rest: string)
    requires EndsNumber(rest)
    ensures ReadValue(Decimal(number) + rest) == Some(Parsed(Number(number), rest))
  {
    var text := Decimal(number) + rest;
    NumberReadsBack(number, rest);
    assert text[0] == '-' || IsDigit(text[0]);
    assert ReadValue(text) == ReadFrom(text[0], text) == ReadNumber(text);
  }

  lemma LiteralReadsBack(rest: string)
    ensures ReadValue("null" + rest) == Some(Parsed(Null, rest))
    ensures ReadValue("true" + rest) == Some(Parsed(Boolean(true), rest))
    ensures ReadValue("false" + rest) == Some(Parsed(Boolean(false), rest))
  {
    assert ("null" + rest)[..4] == "null" && ("null" + rest)[4..] == rest;
    assert ("true" + rest)[..4] == "true" && ("true" + rest)[4..] == rest;
    assert ("false" + rest)[..5] == "false" && ("false" + rest)[5..] == rest;
    assert ReadValue("null" + rest) == ReadFrom('n', "null" + rest);
    assert ReadValue("true" + rest) == ReadFrom('t', "true" + rest);
    assert ReadValue("false" + rest) == ReadFrom('f', "false" + rest);
  }

  lemma ArrayReadsBack(inner: string, items: seq<Json>, rest: string)
    requires inner != [] && inner[0] != ']'
    requires ReadItems(inner) == Some(Parsed(items, rest))
    ensures ReadValue("[" + inner) == Some(Parsed(Array(items), rest))
  {
    var text := "[" + inner;
    assert text[0] == '[' && text[1..] == inner;
    assert text[..2][1] == inner[0];
    assert ReadValue(text) == ReadFrom('[', text) == ReadArray(text);
  }

  lemma ObjectReadsBack(inner: string, members: seq<Member>, rest: string)
    requires inner != [] && inner[0] == '\"'
    requires ReadMembers(inner) == Some(Parsed(members, rest))
    ensures ReadValue("{" + inner) == Some(Parsed(Object(members), rest))
  {
    var text := "{" + inner;
    assert text[0] == '{' && text[1..] == inner;
    assert text[..2][1] == inner[0];
    assert ReadValue(text) == ReadFrom('{', text) == ReadObject(text);
  }

  lemma EmptyContainersReadBack(rest: string)
    ensures ReadValue("[]" + rest) == Some(Parsed(Array([]), rest))
    ensures ReadValue("{}" + rest) == Some(Parsed(Object([]), rest))
  {
    assert ("[]" + rest)[..2] == "[]" && ("[]" + rest)[2..] == rest;
    assert ("{}" + rest)[..2] == "{}" && ("{}" + rest)[2..] == rest;
    assert ReadValue("[]" + rest) == ReadFrom('[', "[]" + rest) == ReadArray("[]" + rest);
    assert ReadValue("{}" + rest) == ReadFrom('{', "{}" + rest) == ReadObject("{}" + rest);
  }

  lemma NeverStartsWithABracket(value: Json)
    ensures Stringify(value) != [] && Stringify(value)[0] != ']'
  {
    if value.Number? && value.number >= 0 {
      assert IsDigit(Decimal(value.number)[0]);
    }
  }

  lemma AfterQuote(chars: string, rest: string)
    ensures "\"" + chars + "\"" + rest != [] && ("\"" + chars + "\"" + rest)[0] == '\"'
    ensures ("\"" + chars + "\"" + rest)[1..] == chars + "\"" + rest
  {
  }

  lemma ReadsText(text: string, content: string, rest: string)
    requires text != [] && text[0] == '\"' && ReadString(text[1..]) == Some(Parsed(content, rest))
    ensures ReadValue(text) == Some(Parsed(Text(content), rest))
  {
    assert ReadValue(text) == ReadFrom('\"', text);
  }

  lemma TextReadsBack(content: string, rest: string)
    ensures ReadValue(Quote(content) + rest) == Some(Parsed(Text(content), rest))
  {
    QuotedTextReadsBack(content, rest);
    AfterQuote(QuoteChars(content), rest);
    ReadsText(Quote(content) + rest, content, rest);
  }

  lemma {:induction false} ValueReadsBack(value: Json, rest: string)
    requires EndsNumber(rest)
    ensures ReadValue(Stringify(value) + rest) == Some(Parsed(value, rest))
    decreases value, 1
  {
    match value
    case Null => LiteralReadsBack(rest);
    case Boolean(flag) => LiteralReadsBack(rest);
    case Number(number) => NumberValueReadsBack(number, rest);
    case Text(content) => TextReadsBack(content, rest);
    case Array(items) => ArrayValueReadsBack(items, rest);
    case Object(members) => ObjectValueReadsBack(members, rest);
  }

  lemma ItemsStart(items: seq<Json>, rest: string)
    requires items != []
    ensures var inner := Join(StringifyItems(items)) + "]" + rest;
            inner != [] && inner[0] != ']'
  {
    NeverStartsWithABracket(items[0]);
    JoinUnfolds(Stringify(items[0]), StringifyItems(items[1..]), "]", rest);
  }

  lemma {:induction false} ArrayValueReadsBack(items: seq<Json>, rest: string)
    ensures ReadValue("[" + Join(StringifyItems(items)) + "]" + rest) == Some(Parsed(Array(items), rest))
    decreases items, 1
  {
    var parts := Join(StringifyItems(items));
    if items == [] {
      EmptyContainersReadBack(rest);
      assert "[" + parts + "]" + rest == "[]" + rest;
    } else {
      ItemsStart(items, rest);
      ItemsReadBack(items, rest);
      ArrayReadsBack(parts + "]" + rest, items, rest);
      Enclosed("[", parts, "]", rest);
    }
  }

  lemma {:induction false} ObjectValueReadsBack(members: seq<Member>, rest: string)
    ensures ReadValue("{" + Join(StringifyMembers(members)) + "}" + rest) == Some(Parsed(Object(members), rest))
    decreases members, 1
  {
    var parts := Join(StringifyMembers(members));
    if members == [] {
      EmptyContainersReadBack(rest);
      assert "{" + parts + "}" + rest == "{}" + rest;
    } else {
      MembersStart(members, rest);
      MembersReadBack(members, rest);
      ObjectReadsBack(parts + "}" + rest, members, rest);
      Enclosed("{", parts, "}", rest);
    }
  }

  lemma Enclosed(opening: string, parts: string, closing: string, rest: string)
    ensures opening + parts + closing + rest == opening + (parts + closing + rest)
  {
  }

  lemma MembersStart(members: seq<Member>, rest: string)
    requires members != []
    ensures var inner := Join(StringifyMembers(members)) + "}" + rest;
            inner != [] && inner[0] == '\"'
  {
    var first := Quote(members[0].key) + ":" + Stringify(members[0].value);
    assert StringifyMembers(members) == [first] + StringifyMembers(members[1..]);
    JoinUnfolds(first, StringifyMembers(members[1..]), "}", rest);
    assert first[0] == '\"';
  }

  lemma JoinUnfolds(first: string, others: seq<string>, closing: string, rest: string)
    ensures Join([first] + others) + closing + rest ==
              if others == [] then first + (closing + rest)
              else first + ("," + (Join(others) + closing + rest))
  {
    assert ([first] + others)[1..] == others;
  }

  lemma ReadsLastItem(text: string, item: Json, rest: string)
    requires ReadValue(text) == Some(Parsed(item, "]" + rest))
    ensures ReadItems(text) == Some(Parsed([item], rest))
  {
    assert ("]" + rest)[1..] == rest;
  }

  lemma ReadsMoreItems(text: string, item: Json, after: string, others: seq<Json>, rest: string)
    requires ReadValue(text) == Some(Parsed(item, "," + after)) && ReadItems(after) == Some(Parsed(others, rest))
    ensures ReadItems(text) == Some(Parsed([item] + others, rest))
  {
    assert ("," + after)[1..] == after;
  }

  lemma {:induction false} ItemsReadBack(items: seq<Json>, rest: string)
    requires items != []
    ensures ReadItems(Join(StringifyItems(items)) + "]" + rest) == Some(Parsed(items, rest))
    decreases items, 0
  {
    var text, first, others := Join(StringifyItems(items)) + "]" + rest, Stringify(items[0]), StringifyItems(items[1..]);
    JoinUnfolds(first, others, "]", rest);
    assert [items[0]] + items[1..] == items;
    if |items| == 1 {
      assert items == [items[0]] && others == [];
      ValueReadsBack(items[0], "]" + rest);
      ReadsLastItem(text, items[0], rest);
    } else {
      var after := Join(others) + "]" + rest;
      ValueReadsBack(items[0], "," + after);
      ItemsReadBack(items[1..], rest);
      ReadsMoreItems(text, items[0], after, items[1..], rest);
    }
  }

  lemma Reassociate(a: string, b: string, c: string, d: string)
    ensures a + b + c + d == a + (b + (c + d))
  {
  }

  lemma ReadsMember(text: string, key: string, valueText: string, value: Json, rest: string)
    requires text != [] && text[0] == '\"' && ReadString(text[1..]) == Some(Parsed(key, ":" + valueText))
    requires ReadValue(valueText) == Some(Parsed(value, rest))
    ensures ReadMember(text) == Some(Parsed(Member(key, value), rest))
  {
    assert (":" + valueText)[1..] == valueText;
  }

  lemma MemberTextReadsBack(key: string, valueText: string, value: Json, rest: string)
    requires ReadValue(valueText) == Some(Parsed(value, rest))
    ensures ReadMember(Quote(key) + (":" + valueText)) == Some(Parsed(Member(key, value), rest))
  {
    QuotedTextReadsBack(key, ":" + valueText);
    AfterQuote(QuoteChars(key), ":" + valueText);
    ReadsMember(Quote(key) + (":" + valueText), key, valueText, value, rest);
  }

  lemma {:induction false} MemberReadsBack(member: Member, rest: string)
    requires EndsNumber(rest)
    ensures ReadMember(Quote(member.key) + ":" + Stringify(member.value) + rest) == Some(Parsed(member, rest))
    decreases member, 2
  {
    var valueText := Stringify(member.value) + rest;
    ValueReadsBack(member.value, rest);
    MemberTextReadsBack(member.key, valueText, member.value, rest);
    Reassociate(Quote(member.key), ":", Stringify(member.value), rest);
  }

  lemma ReadsLastMember(text: string, member: Member, rest: string)
    requires ReadMember(text) == Some(Parsed(member, "}" + rest))
    ensures ReadMembers(text) == Some(Parsed([member], rest))
  {
    assert ("}" + rest)[1..] == rest;
  }

  lemma ReadsMoreMembers(text: string, member: Member, after: string, others: seq<Member>, rest: string)
    requires ReadMember(text) == Some(Parsed(member, "," + after)) && ReadMembers(after) == Some(Parsed(others, rest))
    ensures ReadMembers(text) == Some(Parsed([member] + others, rest))
  {
    assert ("," + after)[1..] == after;
  }

  lemma {:induction false} MembersReadBack(members: seq<Member>, rest: string)
    requires members != []
    ensures ReadMembers(Join(StringifyMembers(members)) + "}" + rest) == Some(Parsed(members, rest))
    decreases members, 0
  {
    var text, first := Join(StringifyMembers(members)) + "}" + rest, Quote(members[0].key) + ":" + Stringify(members[0].value);
    var others := StringifyMembers(members[1..]);
    JoinUnfolds(first, others, "}", rest);
    assert [members[0]] + members[1..] == members;
    if |members| == 1 {
      assert members == [members[0]] && others == [];
      MemberReadsBack(members[0], "}" + rest);
      ReadsLastMember(text, members[0], rest);
    } else {
      var after := Join(others) + "}" + rest;
      MemberReadsBack(members[0], "," + after);
      MembersReadBack(members[1..], rest);
      ReadsMoreMembers(text, members[0], after, members[1..], rest);
    }
  }

  /** Reads a whole text as one document. */
  function ParseJson(text: string): Option<Json> {
    match ReadValue(text)
    case None => None
    case Some(read) => if read.rest == [] then Some(read.value) else None
  }

  /** `JSON.parse(JSON.stringify(document))` gives the document back. */
  lemma CloneIsFaithful(document: Json)
    ensures ParseJson(Stringify(document)) == Some(document)
  {
    ValueReadsBack(document, []);
    assert Stringify(document) + [] == Stringify(document);
  }

  /** Two documents with one text are one document. */
  lemma StringifyInjective(a: Json, b: Json)
    requires Stringify(a) == Stringify(b)
    ensures a == b
  {
    CloneIsFaithful(a);
    CloneIsFaithful(b);
  }
}
