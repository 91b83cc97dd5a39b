/**
 JSON trees, the text the printer renders for them and the tree the parser reads from a text,
 both as functions. Reading back what was printed gives the tree, up to the nesting limit.
 */
module JsonText {
  import opened Bytes
  import opened Wrappers
  import opened JsonNumber
  import opened JsonString

  const NESTING_LIMIT: nat := 1000

  const COMMA: Byte := 0x2c
  const COLON: Byte := 0x3a
  const OPEN_ARRAY: Byte := 0x5b
  const CLOSE_ARRAY: Byte := 0x5d
  const OPEN_OBJECT: Byte := 0x7b
  const CLOSE_OBJECT: Byte := 0x7d
  const SPACE: Byte := 0x20
  const TAB: Byte := 0x09
  const NEWLINE: Byte := 0x0a

  /** "null", "false", "true" */
  const NULL: ByteString := [0x6e, 0x75, 0x6c, 0x6c]
  const FALSE: ByteString := [0x66, 0x61, 0x6c, 0x73, 0x65]
  const TRUE: ByteString := [0x74, 0x72, 0x75, 0x65]

  datatype Json =
    | Null
    | False
    | True
    | Number(number: real)
    | String(text: ByteString)
    | Array(items: seq<Json>)
    | Object(members: seq<Member>)

  datatype Member = Member(key: ByteString, value: Json)

  // ----- Rendering -----

  function Tabs(n: nat): ByteString {
    seq(n, _ => TAB)
  }

  function Render(t: Json, format: bool, depth: nat): ByteString
    decreases t, 1, 0
  {
    match t
    case Null => NULL
    case False => FALSE
    case True => TRUE
    case Number(d) => Decimal(ToInt(d))
    case String(text) => Quoted(text)
    case Array(items) => [OPEN_ARRAY] + RenderItems(t, format, depth + 1, 0) + [CLOSE_ARRAY]
    case Object(members) =>
      (if format then [OPEN_OBJECT, NEWLINE] else [OPEN_OBJECT]) + RenderMembers(t, format, depth + 1, 0) +
      (if format then Tabs(depth) else []) + [CLOSE_OBJECT]
  }

  /** The text from item i on, with the separators between items. */
  function RenderItems(t: Json, format: bool, depth: nat, i: nat): ByteString
    requires t.Array? && i <= |t.items|
    decreases t, 0, |t.items| - i
  {
    if i == |t.items| then []
    else Render(t.items[i], format, depth) + Separator(format, i + 1 < |t.items|) + RenderItems(t, format, depth, i + 1)
  }

  function Separator(format: bool, more: bool): ByteString {
    if !more then [] else if format then [COMMA, SPACE] else [COMMA]
  }

  function RenderMembers(t: Json, format: bool, depth: nat, i: nat): ByteString
    requires t.Object? && i <= |t.members|
    decreases t, 0, |t.members| - i
  {
    if i == |t.members| then []
    else
      KeyText(t.members[i].key, format, depth) + Render(t.members[i].value, format, depth) +
      MemberEnd(format, i + 1 < |t.members|) + RenderMembers(t, format, depth, i + 1)
  }

  function KeyText(key: ByteString, format: bool, depth: nat): ByteString {
    (if format then Tabs(depth) else []) + Quoted(key) + (if format then [COLON, TAB] else [COLON])
  }

  function MemberEnd(format: bool, more: bool): ByteString {
    (if more then [COMMA] else []) + (if format then [NEWLINE] else [])
  }

  // ----- Reading -----

  /** The value of a C string held in these bytes: everything before the first zero byte. */
  function CString(bytes: ByteString): ByteString {
    if bytes == [] || bytes[0] == 0 then [] else [bytes[0]] + CString(bytes[1..])
  }

  function TrimBlanks(s: ByteString): (rest: ByteString)
    ensures |rest| <= |s|
    ensures rest != [] ==> rest[0] > 32
  {
    if s == [] || s[0] > 32 then s else TrimBlanks(s[1..])
  }

  /** Skips every byte up to 32, but steps back onto the last byte when nothing else is left. */
  function Skip(s: ByteString): (rest: ByteString)
    ensures |rest| <= |s| && (rest == [] <==> s == [])
  {
    if s != [] && TrimBlanks(s) == [] then s[|s| - 1..] else TrimBlanks(s)
  }

  predicate StartsWith(s: ByteString, b: Byte) {
    s != [] && s[0] == b
  }

  function ParseString(s: ByteString): (r: Option<(ByteString, ByteString)>)
    ensures r.Some? ==> |r.value.1| < |s|
  {
    if !StartsWith(s, QUOTE) then None
    else
      var body := s[1..];
      match LiteralEnd(body, 0)
      case None => None
      case Some(end) =>
        match Decode(body, 0, end)
        case None => None
        case Some(bytes) => Some((CString(bytes), body[end + 1..]))
  }

  function ParseNumber(s: ByteString): (r: Option<(real, ByteString)>)
    ensures r.Some? ==> |r.value.1| < |s|
  {
    match Strtod(NumberText(s, NUMBER_LIMIT))
    case None => None
    case Some((value, length)) => Some((value, s[length..]))
  }

  /** A parsed element in front of the parsed rest. */
  function Cons<T>(head: T, tail: Option<(seq<T>, ByteString)>): (r: Option<(seq<T>, ByteString)>)
    ensures r.Some? <==> tail.Some?
    ensures r.Some? ==> r.value.1 == tail.value.1
  {
    match tail
    case None => None
    case Some((elements, rest)) => Some(([head] + elements, rest))
  }

  function AsArray(parsed: Option<(seq<Json>, ByteString)>): (r: Option<(Json, ByteString)>)
    ensures r.Some? <==> parsed.Some?
    ensures r.Some? ==> r.value.1 == parsed.value.1
  {
    match parsed
    case None => None
    case Some((items, rest)) => Some((Array(items), rest))
  }

  function AsObject(parsed: Option<(seq<Member>, ByteString)>): (r: Option<(Json, ByteString)>)
    ensures r.Some? <==> parsed.Some?
    ensures r.Some? ==> r.value.1 == parsed.value.1
  {
    match parsed
    case None => None
    case Some((members, rest)) => Some((Object(members), rest))
  }

  /** The value at the front and what follows it; `depth` containers are already open. */
  function ParseValue(s: ByteString, depth: nat): (r: Option<(Json, ByteString)>)
    ensures r.Some? ==> |r.value.1| < |s|
    decreases |s|, 0
  {
    if NULL <= s then Some((Null, s[4..]))
    else if FALSE <= s then Some((False, s[5..]))
    else if TRUE <= s then Some((True, s[4..]))
    else if s == [] then None
    else if s[0] == QUOTE then
      (match ParseString(s)
       case None => None
       case Some((text, rest)) => Some((String(text), rest)))
    else if s[0] == MINUS || IsDigit(s[0]) then
      (match ParseNumber(s)
       case None => None
       case Some((value, rest)) => Some((Number(value), rest)))
    else if s[0] == OPEN_ARRAY then ParseArray(s, depth)
    else if s[0] == OPEN_OBJECT then ParseObject(s, depth)
    else None
  }

  function ParseArray(s: ByteString, depth: nat): (r: Option<(Json, ByteString)>)
    requires s != []
    ensures r.Some? ==> |r.value.1| < |s|
    decreases |s| - 1, 2
  {
    if depth >= NESTING_LIMIT then None
    else
      var inside := Skip(s[1..]);
      if StartsWith(inside, CLOSE_ARRAY) then Some((Array([]), inside[1..]))
      else
        AsArray(ParseItems(inside, depth + 1))
  }

  /** One or more items up to and including the closing bracket. */
  function ParseItems(s: ByteString, depth: nat): (r: Option<(seq<Json>, ByteString)>)
    ensures r.Some? ==> |r.value.1| < |s|
    decreases |s|, 1
  {
    match ParseValue(Skip(s), depth)
    case None => None
    case Some((value, after)) =>
      var next := Skip(after);
      if StartsWith(next, COMMA) then
        Cons(value, ParseItems(next[1..], depth))
      else if StartsWith(next, CLOSE_ARRAY) then Some(([value], next[1..]))
      else None
  }

  function ParseObject(s: ByteString, depth: nat): (r: Option<(Json, ByteString)>)
    requires s != []
    ensures r.Some? ==> |r.value.1| < |s|
    decreases |s| - 1, 2
  {
    if depth >= NESTING_LIMIT then None
    else
      var inside := Skip(s[1..]);
      if StartsWith(inside, CLOSE_OBJECT) then Some((Object([]), inside[1..]))
      else
        AsObject(ParseMembers(inside, depth + 1))
  }

  /** The key and what follows its colon. */
  function ParseKey(s: ByteString): (r: Option<(ByteString, ByteString)>)
    ensures r.Some? ==> |r.value.1| < |s|
  {
    match ParseString(Skip(s))
    case None => None
    case Some((key, afterKey)) =>
      var colon := Skip(afterKey);
      if StartsWith(colon, COLON) then Some((key, Skip(colon[1..]))) else None
  }

  /** One or more members up to and including the closing brace. */
  function ParseMembers(s: ByteString, depth: nat): (r: Option<(seq<Member>, ByteString)>)
    ensures r.Some? ==> |r.value.1| < |s|
    decreases |s|, 1
  {
    match ParseKey(s)
    case None => None
    case Some((key, afterKey)) =>
      match ParseValue(afterKey, depth)
      case None => None
      case Some((value, after)) =>
        var next := Skip(after);
        if StartsWith(next, COMMA) then
          Cons(Member(key, value), ParseMembers(next[1..], depth))
        else if StartsWith(next, CLOSE_OBJECT) then Some(([Member(key, value)], next[1..]))
        else None
  }

  /** The byte order mark is skipped when at least two more bytes follow it. */
  function SkipBom(s: ByteString): (rest: ByteString)
    ensures |rest| <= |s|
  {
    if |s| > 4 && s[..3] == [0xEF, 0xBB, 0xBF] then s[3..] else s
  }

  /** A whole document: the tree and what follows it, optionally required to be the terminating zero. */
  function ParseDocument(s: ByteString, requireNul: bool): Option<(Json, ByteString)> {
    if s == [] then None
    else
      match ParseValue(Skip(SkipBom(s)), 0)
      case None => None
      case Some((t, after)) =>
        if !requireNul then Some((t, after))
        else if StartsWith(Skip(after), 0) then Some((t, Skip(after)))
        else None
  }

  // ----- In plain terms: what is printed -----

  lemma WordsMean()
    ensures NULL == Ascii("null") && FALSE == Ascii("false") && TRUE == Ascii("true")
    ensures [COMMA, COLON, SPACE, TAB, NEWLINE] == Ascii(",: \t\n")
    ensures [OPEN_ARRAY, CLOSE_ARRAY, OPEN_OBJECT, CLOSE_OBJECT] == Ascii("[]{}")
  {
  }

  lemma MarksMean()
    ensures Ascii("\"") == [QUOTE] && Ascii(":\t") == [COLON, TAB] && Ascii(":") == [COLON]
    ensures Ascii(",") == [COMMA] && Ascii("\n") == [NEWLINE]
  {
  }

  /** Words, numbers and texts. */
  lemma ScalarsMean(format: bool, depth: nat, d: real, text: ByteString)
    ensures Render(Null, format, depth) == Ascii("null") && Render(False, format, depth) == Ascii("false")
    ensures Render(True, format, depth) == Ascii("true") && Render(Number(d), format, depth) == Decimal(ToInt(d))
    ensures Render(String(text), format, depth) == Ascii("\"") + EscapeText(text) + Ascii("\"")
  {
    WordsMean();
    assert Ascii("\"") == [QUOTE];
    hide NULL, FALSE, TRUE, EscapeText, Decimal;
  }

  /** Items stand between brackets, with a comma and in the formatted text a space between them. */
  lemma ItemsMean(items: seq<Json>, format: bool, depth: nat)
    ensures Render(Array([]), format, depth) == Ascii("[]")
    ensures Render(Array(items), format, depth) ==
            Ascii("[") + RenderItems(Array(items), format, depth + 1, 0) + Ascii("]")
    ensures forall i | 0 <= i < |items| ::
              RenderItems(Array(items), format, depth, i) ==
              if i == |items| - 1 then Render(items[i], format, depth)
              else
                Render(items[i], format, depth) + (if format then Ascii(", ") else Ascii(",")) +
                RenderItems(Array(items), format, depth, i + 1)
  {
    assert Ascii("[") == [OPEN_ARRAY] && Ascii("]") == [CLOSE_ARRAY] && Ascii(", ") == [COMMA, SPACE];
    assert Ascii(",") == [COMMA] && Ascii("[]") == [OPEN_ARRAY, CLOSE_ARRAY];
    hide Render;
    assert RenderItems(Array(items), format, depth, |items|) == [];
    EmptyMeans(format, depth);
    ArrayMeans(items, format, depth);
  }

  lemma EmptyMeans(format: bool, depth: nat)
    ensures Render(Array([]), format, depth) == [OPEN_ARRAY, CLOSE_ARRAY]
    ensures Render(Object([]), format, depth) ==
            [OPEN_OBJECT] + (if format then [NEWLINE] + Tabs(depth) else []) + [CLOSE_OBJECT]
  {
    assert RenderItems(Array([]), format, depth + 1, 0) == [];
    assert RenderMembers(Object([]), format, depth + 1, 0) == [];
  }

  lemma ArrayMeans(items: seq<Json>, format: bool, depth: nat)
    ensures Render(Array(items), format, depth) ==
            [OPEN_ARRAY] + RenderItems(Array(items), format, depth + 1, 0) + [CLOSE_ARRAY]
  {
  }

  /** Members stand between braces, each on a line of its own and indented where the text is formatted. */
  lemma MembersMean(members: seq<Member>, depth: nat)
    ensures Render(Object(members), false, depth) ==
            Ascii("{") + RenderMembers(Object(members), false, depth + 1, 0) + Ascii("}")
    ensures Render(Object(members), true, depth) ==
            Ascii("{\n") + RenderMembers(Object(members), true, depth + 1, 0) + Tabs(depth) + Ascii("}")
    ensures |Tabs(depth)| == depth && forall i | 0 <= i < depth :: Tabs(depth)[i] as int == '\t' as int
  {
    assert Ascii("{") == [OPEN_OBJECT] && Ascii("}") == [CLOSE_OBJECT] && Ascii("{\n") == [OPEN_OBJECT, NEWLINE];
    assert Render(Object(members), true, depth) ==
        [OPEN_OBJECT, NEWLINE] + RenderMembers(Object(members), true, depth + 1, 0) + Tabs(depth) + [CLOSE_OBJECT];
    hide RenderMembers;
  }

  lemma MemberMeans(members: seq<Member>, format: bool, depth: nat, i: nat)
    requires i < |members|
    ensures var quoted := Ascii("\"") + EscapeText(members[i].key) + Ascii("\"");
            var value := Render(members[i].value, format, depth);
            var comma := if i < |members| - 1 then Ascii(",") else [];
            RenderMembers(Object(members), format, depth, i) ==
            (if format then Tabs(depth) + quoted + Ascii(":\t") + value + (comma + Ascii("\n"))
             else quoted + Ascii(":") + value + comma) +
            RenderMembers(Object(members), format, depth, i + 1)
    ensures RenderMembers(Object(members), format, depth, |members|) == []
  {
    hide Render, EscapeText, Tabs, Ascii, KeyText, MemberEnd;
    KeyMeans(members[i].key, format, depth);
    EndMeans(format, i < |members| - 1);
  }

  lemma KeyMeans(key: ByteString, format: bool, depth: nat)
    ensures var quoted := Ascii("\"") + EscapeText(key) + Ascii("\"");
            KeyText(key, format, depth) ==
            if format then Tabs(depth) + quoted + Ascii(":\t") else quoted + Ascii(":")
  {
    hide EscapeText, Tabs, Ascii;
    MarksMean();
    var quoted := Quoted(key);
    assert [] + quoted + [COLON] == quoted + [COLON];
  }

  lemma EndMeans(format: bool, more: bool)
    ensures var comma := if more then Ascii(",") else [];
            MemberEnd(format, more) == if format then comma + Ascii("\n") else comma
  {
    hide Ascii;
    MarksMean();
  }

  // ----- In plain terms: what is read -----

  /** Blanks are the bytes up to 32; where nothing else is left, the last one stays. */
  predicate Blanks(s: ByteString) {
    forall i | 0 <= i < |s| :: s[i] <= 32
  }

  lemma {:induction false} TrimBlanksMeans(blanks: ByteString, rest: ByteString)
    requires Blanks(blanks) && (rest == [] || rest[0] > 32)
    ensures TrimBlanks(blanks + rest) == rest
  {
    if blanks == [] {
      assert blanks + rest == rest;
    } else {
      assert (blanks + rest)[1..] == blanks[1..] + rest;
      TrimBlanksMeans(blanks[1..], rest);
    }
  }

  lemma SkipMeans(blanks: ByteString, rest: ByteString)
    requires Blanks(blanks) && (rest == [] || rest[0] > 32)
    ensures rest != [] ==> Skip(blanks + rest) == rest
    ensures rest == [] && blanks != [] ==> Skip(blanks) == [blanks[|blanks| - 1]]
  {
    TrimBlanksMeans(blanks, rest);
    assert rest == [] ==> blanks + rest == blanks;
  }

  /** The words stand for themselves. */
  lemma WordsRead(s: ByteString, depth: nat)
    ensures Ascii("null") <= s ==> ParseValue(s, depth) == Some((Null, s[4..]))
    ensures Ascii("false") <= s ==> ParseValue(s, depth) == Some((False, s[5..]))
    ensures Ascii("true") <= s ==> ParseValue(s, depth) == Some((True, s[4..]))
  {
    hide ParseString, ParseNumber, ParseArray, ParseObject, Ascii;
    WordsMean();
    FirstLetters();
  }

  lemma FirstLetters()
    ensures |NULL| == |TRUE| == 4 && |FALSE| == 5
    ensures NULL[0] != FALSE[0] && NULL[0] != TRUE[0] && FALSE[0] != TRUE[0]
  {
  }

  /** The first byte of anything else decides what is read. */
  lemma ValueMeans(s: ByteString, depth: nat)
    ensures s != [] && s[0] as int as char == '"' ==>
              var r := ParseString(s);
              ParseValue(s, depth) == if r.Some? then Some((String(r.value.0), r.value.1)) else None
    ensures s != [] && (s[0] as int as char == '-' || '0' <= s[0] as int as char <= '9') ==>
              var r := ParseNumber(s);
              ParseValue(s, depth) == if r.Some? then Some((Number(r.value.0), r.value.1)) else None
    ensures s != [] && s[0] as int as char == '[' ==> ParseValue(s, depth) == ParseArray(s, depth)
    ensures s != [] && s[0] as int as char == '{' ==> ParseValue(s, depth) == ParseObject(s, depth)
    ensures s == [] || s[0] as int as char in {' ', '\t', '\n', ']', '}', ',', ':', '+', '.'} ==>
              ParseValue(s, depth) == None
  {
    hide ParseString, ParseNumber, ParseArray, ParseObject;
  }

  /** The number in front, of which at most 63 bytes are looked at. */
  lemma NumberMeans(s: ByteString)
    ensures var r := Strtod(NumberText(s, 63));
            ParseNumber(s) == if r.Some? then Some((r.value.0, s[r.value.1..])) else None
  {
    hide Strtod, NumberText;
  }

  /** Up to 1000 containers may be open; an empty one may hold blanks. */
  lemma ContainersMean(blanks: ByteString, rest: ByteString, depth: nat)
    requires Blanks(blanks) && rest != [] && rest[0] > 32
    ensures var r := ParseItems(rest, depth + 1);
            ParseArray(Ascii("[") + blanks + rest, depth) ==
            if depth >= 1000 then None
            else if rest[0] as int as char == ']' then Some((Array([]), rest[1..]))
            else if r.Some? then Some((Array(r.value.0), r.value.1)) else None
    ensures var r := ParseMembers(rest, depth + 1);
            ParseObject(Ascii("{") + blanks + rest, depth) ==
            if depth >= 1000 then None
            else if rest[0] as int as char == '}' then Some((Object([]), rest[1..]))
            else if r.Some? then Some((Object(r.value.0), r.value.1)) else None
  {
    SkipMeans(blanks, rest);
    assert (Ascii("[") + blanks + rest)[1..] == blanks + rest;
    assert (Ascii("{") + blanks + rest)[1..] == blanks + rest;
    hide ParseItems, ParseMembers, Skip;
  }

  /** Around items and the commas between them there may be blanks. */
  lemma ItemsRead(before: ByteString, s: ByteString, depth: nat, value: Json, blanks: ByteString, b: Byte,
                  rest: ByteString)
    requires Blanks(before) && s != [] && s[0] > 32 && Blanks(blanks) && b > 32
    requires ParseValue(s, depth) == Some((value, blanks + [b] + rest))
    ensures var r := ParseItems(rest, depth);
            ParseItems(before + s, depth) ==
            if b as int as char == ',' then if r.Some? then Some(([value] + r.value.0, r.value.1)) else None
            else if b as int as char == ']' then Some(([value], rest))
            else None
  {
    hide Skip, ParseValue, Ascii;
    SkipMeans(before, s);
    SkipMeans(blanks, [b] + rest);
    assert blanks + ([b] + rest) == blanks + [b] + rest && ([b] + rest)[1..] == rest;
  }

  /** The same around keys, colons, values and commas. */
  lemma KeyRead(before: ByteString, s: ByteString, key: ByteString, blanks: ByteString, b: Byte,
                after: ByteString, rest: ByteString)
    requires Blanks(before) && s != [] && s[0] > 32 && Blanks(blanks) && b > 32 && Blanks(after)
    requires rest != [] && rest[0] > 32
    requires ParseString(s) == Some((key, blanks + [b] + after + rest))
    ensures ParseKey(before + s) == if b as int as char == ':' then Some((key, rest)) else None
  {
    hide Skip, ParseString, Ascii;
    SkipMeans(before, s);
    SkipMeans(blanks, [b] + after + rest);
    assert blanks + ([b] + after + rest) == blanks + [b] + after + rest;
    assert ([b] + after + rest)[1..] == after + rest;
    SkipMeans(after, rest);
  }

  lemma MembersRead(s: ByteString, depth: nat, key: ByteString, at: ByteString, value: Json, blanks: ByteString,
                    b: Byte, rest: ByteString)
    requires ParseKey(s) == Some((key, at)) && Blanks(blanks) && b > 32
    requires ParseValue(at, depth) == Some((value, blanks + [b] + rest))
    ensures var r := ParseMembers(rest, depth);
            ParseMembers(s, depth) ==
            if b as int as char == ',' then
              if r.Some? then Some(([Member(key, value)] + r.value.0, r.value.1)) else None
            else if b as int as char == '}' then Some(([Member(key, value)], rest))
            else None
  {
    hide Skip, ParseValue, ParseKey, Ascii;
    SkipMeans(blanks, [b] + rest);
    assert blanks + ([b] + rest) == blanks + [b] + rest && ([b] + rest)[1..] == rest;
  }

  /** A text ends at its first zero byte. */
  lemma {:induction false} CStringMeans(front: ByteString, rest: ByteString)
    requires 0 !in front
    ensures CString(front + [0] + rest) == front && CString(front) == front
  {
    if front != [] {
      assert (front + [0] + rest)[1..] == front[1..] + [0] + rest;
      CStringMeans(front[1..], rest);
    }
  }

  /** A document may begin with a byte order mark and with blanks. */
  lemma DocumentMeans(before: ByteString, s: ByteString)
    requires Blanks(before) && s != [] && 32 < s[0] < 0x80
    ensures ParseDocument(before + s, false) == ParseValue(s, 0)
    ensures |s| > 1 ==> ParseDocument([0xEF, 0xBB, 0xBF] + before + s, false) == ParseValue(s, 0)
  {
    hide ParseValue, Skip;
    var bom: ByteString := [0xEF, 0xBB, 0xBF];
    SkipMeans(before, s);
    NoBom(before, s);
    assert bom + before + s == bom + (before + s) && (bom + (before + s))[3..] == before + s;
  }

  /** Where the terminating zero is asked for, only blanks may stand before it. */
  lemma DocumentEnds(before: ByteString, s: ByteString, t: Json, blanks: ByteString, rest: ByteString)
    requires Blanks(before) && s != [] && 32 < s[0] < 0x80
    requires Blanks(blanks) && (rest == [] || rest[0] > 32) && ParseValue(s, 0) == Some((t, blanks + rest))
    ensures ParseDocument(before + s, true) ==
            if rest == [] && blanks != [] && blanks[|blanks| - 1] == 0 then Some((t, [0])) else None
  {
    hide ParseValue, Skip;
    SkipMeans(before, s);
    NoBom(before, s);
    SkipMeans(blanks, rest);
    assert rest == [] ==> blanks + rest == blanks;
    SkipNothing();
  }

  lemma SkipNothing()
    ensures Skip([]) == []
  {
  }

  lemma NoBom(before: ByteString, s: ByteString)
    requires Blanks(before) && s != [] && s[0] < 0x80
    ensures SkipBom(before + s) == before + s
  {
    if |before + s| >= 3 {
      assert (before + s)[..3][0] == (before + s)[0];
    }
  }
}
