/** The parser undoes the printer: for every printable tree and both formats. */
module JsonRoundTrip {
  import opened Bytes
  import opened Wrappers
  import opened JsonNumber
  import opened JsonString
  import opened JsonText

  /** Strings are C strings and numbers are in the range of int, as the service layers build them. */
  ghost predicate Printable(t: Json) {
    match t
    case Number(d) => IsInteger(d)
    case String(text) => 0 !in text
    case Array(items) => forall i | 0 <= i < |items| :: Printable(items[i])
    case Object(members) => forall i | 0 <= i < |members| :: 0 !in members[i].key && Printable(members[i].value)
    case _ => true
  }

  /** The number of containers around the innermost container, itself included. */
  function Nesting(t: Json): nat {
    match t
    case Array(items) => 1 + DeepestItem(t, 0)
    case Object(members) => 1 + DeepestMember(t, 0)
    case _ => 0
  }

  function DeepestItem(t: Json, i: nat): nat
    requires t.Array? && i <= |t.items|
    decreases t, 0, |t.items| - i
  {
    if i == |t.items| then 0 else Max(Nesting(t.items[i]), DeepestItem(t, i + 1))
  }

  function DeepestMember(t: Json, i: nat): nat
    requires t.Object? && i <= |t.members|
    decreases t, 0, |t.members| - i
  {
    if i == |t.members| then 0 else Max(Nesting(t.members[i].value), DeepestMember(t, i + 1))
  }

  function Max(a: nat, b: nat): nat {
    if a < b then b else a
  }

  /** What may follow a value without changing how it reads. */
  predicate Stops(tail: ByteString) {
    tail == [] || !NumberByte(tail[0])
  }

  /** Ints, texts without zero bytes, and what is built from them can be printed and read back. */
  lemma PrintableMeans(n: int, text: ByteString, items: seq<Json>, members: seq<Member>)
    ensures Printable(Null) && Printable(False) && Printable(True)
    ensures -2147483648 <= n <= 2147483647 ==> Printable(Number(n as real))
    ensures Printable(String(text)) <==> 0 !in text
    ensures Printable(Array(items)) <==> forall i | 0 <= i < |items| :: Printable(items[i])
    ensures Printable(Object(members)) <==>
            forall i | 0 <= i < |members| :: 0 !in members[i].key && Printable(members[i].value)
  {
    if -2147483648 <= n <= 2147483647 {
      ToIntWhole(n);
    }
  }

  /** A container is nested one deeper than the deepest thing in it. */
  lemma NestingMeans(items: seq<Json>, members: seq<Member>, n: nat)
    ensures Nesting(Null) == Nesting(False) == Nesting(True) == 0
    ensures (forall d :: Nesting(Number(d)) == 0) && forall text :: Nesting(String(text)) == 0
    ensures Nesting(Array(items)) <= n <==> n > 0 && forall i | 0 <= i < |items| :: Nesting(items[i]) < n
    ensures Nesting(Object(members)) <= n <==>
            n > 0 && forall i | 0 <= i < |members| :: Nesting(members[i].value) < n
  {
    hide Nesting, DeepestItem, DeepestMember;
    NestingIs(items, members);
    DeepestMeans(items, members, 0, 0, n - 1);
  }

  lemma NestingIs(items: seq<Json>, members: seq<Member>)
    ensures Nesting(Null) == Nesting(False) == Nesting(True) == 0
    ensures (forall d :: Nesting(Number(d)) == 0) && forall text :: Nesting(String(text)) == 0
    ensures Nesting(Array(items)) == 1 + DeepestItem(Array(items), 0)
    ensures Nesting(Object(members)) == 1 + DeepestMember(Object(members), 0)
  {
    hide DeepestItem, DeepestMember;
  }

  lemma {:induction false} DeepestMeans(items: seq<Json>, members: seq<Member>, i: nat, j: nat, n: int)
    requires i <= |items| && j <= |members|
    ensures DeepestItem(Array(items), i) <= n <==>
            n >= 0 && forall k | i <= k < |items| :: Nesting(items[k]) <= n
    ensures DeepestMember(Object(members), j) <= n <==>
            n >= 0 && forall k | j <= k < |members| :: Nesting(members[k].value) <= n
    decreases |items| - i + |members| - j
  {
    hide Nesting;
    if i < |items| {
      DeepestMeans(items, members, i + 1, j, n);
    }
    if j < |members| {
      DeepestMeans(items, members, i, j + 1, n);
    }
  }

  // ----- Blanks -----

  lemma SkipNothing(s: ByteString)
    requires s != [] && s[0] > 32
    ensures Skip(s) == s
  {
  }

  lemma {:induction false} SkipBlanks(blanks: ByteString, s: ByteString)
    requires (forall i | 0 <= i < |blanks| :: blanks[i] <= 32) && s != [] && s[0] > 32
    ensures Skip(blanks + s) == s && TrimBlanks(blanks + s) == s
  {
    if blanks == [] {
      assert blanks + s == s;
    } else {
      SkipBlanks(blanks[1..], s);
      assert (blanks + s)[1..] == blanks[1..] + s;
    }
  }

  lemma {:induction false} CStringWhole(text: ByteString)
    requires 0 !in text
    ensures CString(text) == text
  {
    if text != [] {
      assert text[0] in text;
      CStringWhole(text[1..]);
    }
  }

  // ----- Scalars -----

  /** A rendering starts with a visible byte that tells its kind. */
  lemma RenderStart(t: Json, format: bool, depth: nat)
    requires Printable(t)
    ensures var s := Render(t, format, depth);
            && s != [] && s[0] > 32
            && s[0] != CLOSE_ARRAY && s[0] != CLOSE_OBJECT && s[0] != 0xEF
  {
    hide RenderItems, RenderMembers;
    if t.Number? {
      DecimalText(ToInt(t.number));
    }
  }

  lemma QuotedText(text: ByteString, tail: ByteString)
    requires 0 !in text
    ensures ParseString(Quoted(text) + tail) == Some((text, tail))
  {
    hide Decode, LiteralEnd;
    var s := Quoted(text) + tail;
    var body := EscapeText(text) + [QUOTE] + tail;
    assert s[1..] == body;
    QuotedRoundTrip(text, tail);
    assert body[|EscapeText(text)| + 1..] == tail;
    CStringWhole(text);
  }

  lemma DecimalNumber(n: int, tail: ByteString)
    requires INT_MIN <= n <= INT_MAX && Stops(tail)
    ensures ParseNumber(Decimal(n) + tail) == Some((n as real, tail))
  {
    hide Strtod, NumberText, Decimal;
    DecimalRoundTrip(n, tail);
    assert (Decimal(n) + tail)[|Decimal(n)|..] == tail;
  }

  /** The words are told apart from everything else by their first letter. */
  lemma NotAWord(s: ByteString)
    requires s != [] && s[0] != 0x6e && s[0] != 0x66 && s[0] != 0x74
    ensures !(NULL <= s) && !(FALSE <= s) && !(TRUE <= s)
  {
  }

  lemma ParseScalar(t: Json, format: bool, depth: nat, nesting: nat, tail: ByteString)
    requires Printable(t) && !t.Array? && !t.Object? && Stops(tail)
    ensures ParseValue(Render(t, format, depth) + tail, nesting) == Some((t, tail))
  {
    hide ParseString, ParseNumber, Decimal, ToInt, ParseArray, ParseObject;
    var s := Render(t, format, depth) + tail;
    match t
    case Null =>
      assert s[4..] == tail;
    case False =>
      assert s[0] == FALSE[0] && s[5..] == tail;
    case True =>
      assert s[0] == TRUE[0] && s[4..] == tail;
    case Number(d) =>
      DecimalText(ToInt(d));
      NotAWord(s);
      DecimalNumber(ToInt(d), tail);
    case String(text) =>
      NotAWord(s);
      QuotedText(text, tail);
  }

  lemma SkipTwice(s: ByteString)
    ensures Skip(Skip(s)) == Skip(s)
  {
  }

  // ----- Containers -----

  lemma {:induction false} ParseRendered(t: Json, format: bool, depth: nat, nesting: nat, tail: ByteString)
    requires Printable(t) && Stops(tail) && nesting <= NESTING_LIMIT
    ensures ParseValue(Render(t, format, depth) + tail, nesting) ==
            if nesting + Nesting(t) <= NESTING_LIMIT then Some((t, tail)) else None
    decreases t, 1, 0
  {
    assert !t.Array? && !t.Object? ==> Nesting(t) == 0;
    hide *;
    if t.Array? {
      ParseRenderedArray(t, format, depth, nesting, tail);
    } else if t.Object? {
      ParseRenderedObject(t, format, depth, nesting, tail);
    } else {
      ParseScalar(t, format, depth, nesting, tail);
    }
  }

  // ----- Arrays -----

  /** What follows item i: its separator, the other items, the bracket and the tail. */
  function AfterItem(t: Json, format: bool, depth: nat, i: nat, tail: ByteString): ByteString
    requires t.Array? && i < |t.items|
  {
    Separator(format, i + 1 < |t.items|) + RenderItems(t, format, depth, i + 1) + [CLOSE_ARRAY] + tail
  }

  function ItemsText(t: Json, format: bool, depth: nat, i: nat, tail: ByteString): ByteString
    requires t.Array? && i <= |t.items|
  {
    RenderItems(t, format, depth, i) + [CLOSE_ARRAY] + tail
  }

  function ItemLead(format: bool): ByteString {
    if format then [SPACE] else []
  }

  lemma ItemTextStart(t: Json, format: bool, depth: nat, i: nat, lead: ByteString, tail: ByteString)
    requires t.Array? && Printable(t) && i < |t.items| && (lead == [] || lead == [SPACE])
    ensures Skip(lead + ItemsText(t, format, depth, i, tail)) ==
            Render(t.items[i], format, depth) + AfterItem(t, format, depth, i, tail)
    ensures (Render(t.items[i], format, depth) + AfterItem(t, format, depth, i, tail))[0] != CLOSE_ARRAY
  {
    RenderStart(t.items[i], format, depth);
    ItemTextSplit(t, format, depth, i, tail);
    hide *;
    SkipBlanks(lead, ItemsText(t, format, depth, i, tail));
  }

  lemma ItemTextSplit(t: Json, format: bool, depth: nat, i: nat, tail: ByteString)
    requires t.Array? && i < |t.items|
    ensures ItemsText(t, format, depth, i, tail) ==
              Render(t.items[i], format, depth) + AfterItem(t, format, depth, i, tail)
  {
    var value, separator := Render(t.items[i], format, depth), Separator(format, i + 1 < |t.items|);
    var rest := RenderItems(t, format, depth, i + 1);
    assert RenderItems(t, format, depth, i) == value + separator + rest;
    hide *;
    Regroup(value, separator, rest, [CLOSE_ARRAY], tail);
  }

  lemma Regroup(a: ByteString, b: ByteString, c: ByteString, d: ByteString, e: ByteString)
    ensures a + b + c + d + e == a + (b + c + d + e)
    ensures a + b + c + d + e == a + (b + (c + (d + e)))
  {
  }

  lemma ItemTextEnd(t: Json, format: bool, depth: nat, i: nat, tail: ByteString)
    requires t.Array? && i < |t.items|
    ensures var after := AfterItem(t, format, depth, i, tail);
            && Stops(after)
            && (if i + 1 < |t.items|
                then Skip(after) == [COMMA] + (ItemLead(format) + ItemsText(t, format, depth, i + 1, tail))
                else Skip(after) == [CLOSE_ARRAY] + tail)
  {
    var after := AfterItem(t, format, depth, i, tail);
    var next := if i + 1 < |t.items| then [COMMA] + (ItemLead(format) + ItemsText(t, format, depth, i + 1, tail))
                else [CLOSE_ARRAY] + tail;
    RenderNoItems(t, format, depth);
    hide RenderItems, Skip;
    assert after == next;
    SkipNothing(after);
  }

  lemma RenderNoItems(t: Json, format: bool, depth: nat)
    requires t.Array?
    ensures RenderItems(t, format, depth, |t.items|) == []
  {
  }

  lemma ItemsStep(s: ByteString, depth: nat, item: Json, after: ByteString, next: Byte, rest: ByteString)
    requires ParseValue(Skip(s), depth) == Some((item, after)) && Skip(after) == [next] + rest
    ensures next == CLOSE_ARRAY ==> ParseItems(s, depth) == Some(([item], rest))
    ensures next == COMMA ==> ParseItems(s, depth) == Cons(item, ParseItems(rest, depth))
  {
    var front := Skip(after);
    assert front[1..] == rest;
    hide ParseValue, Skip, Cons;
  }

  lemma ItemsFail(s: ByteString, depth: nat)
    requires ParseValue(Skip(s), depth) == None
    ensures ParseItems(s, depth) == None
  {
    hide ParseValue, Skip, Cons;
  }

  lemma ConsIs<T>(head: T, tail: Option<(seq<T>, ByteString)>)
    ensures Cons(head, tail) ==
            if tail.None? then None else Some(([head] + tail.value.0, tail.value.1))
  {
  }

  lemma ItemsFrom<T>(items: seq<T>, i: nat)
    requires i < |items|
    ensures items[i..] == [items[i]] + items[i + 1..] && items[0..] == items
    ensures i + 1 == |items| ==> items[i..] == [items[i]]
  {
  }

  lemma DeepestItemStep(t: Json, i: nat)
    requires t.Array?
    ensures i < |t.items| ==> DeepestItem(t, i) == Max(Nesting(t.items[i]), DeepestItem(t, i + 1))
    ensures DeepestItem(t, |t.items|) == 0
    ensures Nesting(t) == 1 + DeepestItem(t, 0)
    ensures Printable(t) && i < |t.items| ==> Printable(t.items[i])
  {
  }

  lemma {:induction false} ParseRenderedItems(
    t: Json, format: bool, depth: nat, nesting: nat, i: nat, lead: ByteString, tail: ByteString)
    requires t.Array? && Printable(t) && i < |t.items| && nesting <= NESTING_LIMIT
    requires lead == [] || lead == [SPACE]
    ensures ParseItems(lead + ItemsText(t, format, depth, i, tail), nesting) ==
            if nesting + DeepestItem(t, i) <= NESTING_LIMIT then Some((t.items[i..], tail)) else None
    decreases t, 0, |t.items| - i
  {
    hide *;
    var s := lead + ItemsText(t, format, depth, i, tail);
    var after := AfterItem(t, format, depth, i, tail);
    ItemTextStart(t, format, depth, i, lead, tail);
    ItemTextEnd(t, format, depth, i, tail);
    DeepestItemStep(t, i);
    ParseRendered(t.items[i], format, depth, nesting, after);
    MaxIsMax(Nesting(t.items[i]), if i + 1 < |t.items| then DeepestItem(t, i + 1) else 0);
    ItemsFrom(t.items, i);
    if nesting + Nesting(t.items[i]) > NESTING_LIMIT {
      ItemsFail(s, nesting);
    } else if i + 1 < |t.items| {
      LeadForms(format);
      var rest := ItemLead(format) + ItemsText(t, format, depth, i + 1, tail);
      ParseRenderedItems(t, format, depth, nesting, i + 1, ItemLead(format), tail);
      ItemsStep(s, nesting, t.items[i], after, COMMA, rest);
      ConsIs(t.items[i], ParseItems(rest, nesting));
    } else {
      ItemsStep(s, nesting, t.items[i], after, CLOSE_ARRAY, tail);
    }
  }

  lemma LeadForms(format: bool)
    ensures ItemLead(format) == [] || ItemLead(format) == [SPACE]
    ensures MemberLead(format) == [] || MemberLead(format) == [NEWLINE]
  {
  }

  lemma MaxIsMax(a: nat, b: nat)
    ensures Max(a, b) >= a && Max(a, b) >= b && (Max(a, b) == a || Max(a, b) == b)
  {
  }

  lemma ArrayStep(s: ByteString, depth: nat, inside: ByteString, tail: ByteString)
    requires s == [OPEN_ARRAY] + inside && inside != []
    ensures depth >= NESTING_LIMIT ==> ParseValue(s, depth) == None
    ensures depth < NESTING_LIMIT && Skip(inside) == [CLOSE_ARRAY] + tail ==>
              ParseValue(s, depth) == Some((Array([]), tail))
    ensures depth < NESTING_LIMIT && !StartsWith(Skip(inside), CLOSE_ARRAY) ==>
              ParseValue(s, depth) == AsArray(ParseItems(inside, depth + 1))
  {
    assert s[1..] == inside;
    hide *;
    BracketOpensArray(s, depth);
    InsideArray(s, depth, inside, tail);
    ParseItemsSkip(inside, depth + 1);
  }

  lemma BracketOpensArray(s: ByteString, depth: nat)
    requires s != [] && s[0] == OPEN_ARRAY
    ensures ParseValue(s, depth) == ParseArray(s, depth)
  {
    hide ParseArray, ParseObject, ParseString, ParseNumber, NULL, FALSE, TRUE;
    NotAWord(s);
  }

  lemma InsideArray(s: ByteString, depth: nat, inside: ByteString, tail: ByteString)
    requires s != [] && s[1..] == inside
    ensures depth >= NESTING_LIMIT ==> ParseArray(s, depth) == None
    ensures depth < NESTING_LIMIT && Skip(inside) == [CLOSE_ARRAY] + tail ==>
              ParseArray(s, depth) == Some((Array([]), tail))
    ensures depth < NESTING_LIMIT && !StartsWith(Skip(inside), CLOSE_ARRAY) ==>
              ParseArray(s, depth) == AsArray(ParseItems(Skip(inside), depth + 1))
  {
    hide Skip, ParseItems, AsArray;
    assert ([CLOSE_ARRAY] + tail)[1..] == tail;
  }

  lemma ParseItemsSkip(s: ByteString, depth: nat)
    ensures ParseItems(Skip(s), depth) == ParseItems(s, depth)
  {
    SkipTwice(s);
    hide Skip, ParseValue, Cons;
  }

  lemma {:induction false} ParseRenderedArray(t: Json, format: bool, depth: nat, nesting: nat, tail: ByteString)
    requires t.Array? && Printable(t) && Stops(tail) && nesting <= NESTING_LIMIT
    ensures ParseValue(Render(t, format, depth) + tail, nesting) ==
            if nesting + Nesting(t) <= NESTING_LIMIT then Some((t, tail)) else None
    decreases t, 0, |t.items| + 1
  {
    hide *;
    ArrayRendering(t, format, depth, tail);
    var inside := [] + ItemsText(t, format, depth + 1, 0, tail);
    var s := Render(t, format, depth) + tail;
    DeepestItemStep(t, 0);
    ArrayStep(s, nesting, inside, tail);
    if nesting < NESTING_LIMIT && t.items != [] {
      ItemTextStart(t, format, depth + 1, 0, [], tail);
      NotStart(Skip(inside), CLOSE_ARRAY);
      ParseRenderedItems(t, format, depth + 1, nesting + 1, 0, [], tail);
      ItemsFrom(t.items, 0);
      Wrapped(ParseItems(inside, nesting + 1), None);
    }
  }

  lemma Wrapped(items: Option<(seq<Json>, ByteString)>, members: Option<(seq<Member>, ByteString)>)
    ensures AsArray(items) == if items.None? then None else Some((Array(items.value.0), items.value.1))
    ensures AsObject(members) == if members.None? then None else Some((Object(members.value.0), members.value.1))
  {
  }

  lemma NotStart(s: ByteString, b: Byte)
    ensures StartsWith(s, b) <==> s != [] && s[0] == b
  {
  }

  lemma ArrayRendering(t: Json, format: bool, depth: nat, tail: ByteString)
    requires t.Array?
    ensures var inside := [] + ItemsText(t, format, depth + 1, 0, tail);
            && inside != [] && Render(t, format, depth) + tail == [OPEN_ARRAY] + inside
            && (t.items == [] ==> Skip(inside) == [CLOSE_ARRAY] + tail)
  {
    RenderNoItems(t, format, depth + 1);
    var inside := [] + ItemsText(t, format, depth + 1, 0, tail);
    if t.items == [] {
      assert inside == [CLOSE_ARRAY] + tail;
      SkipNothing(inside);
    }
    hide RenderItems, Skip;
    assert Render(t, format, depth) + tail == [OPEN_ARRAY] + inside;
  }

  // ----- Objects -----

  /** What closes an object: its own indentation and the brace. */
  function ObjectEnd(format: bool, depth: nat, tail: ByteString): ByteString {
    (if format then Tabs(depth) else []) + ([CLOSE_OBJECT] + tail)
  }

  function MembersText(t: Json, format: bool, depth: nat, i: nat, tail: ByteString): ByteString
    requires t.Object? && i <= |t.members|
  {
    RenderMembers(t, format, depth + 1, i) + ObjectEnd(format, depth, tail)
  }

  function AfterMember(t: Json, format: bool, depth: nat, i: nat, tail: ByteString): ByteString
    requires t.Object? && i < |t.members|
  {
    MemberEnd(format, i + 1 < |t.members|) + MembersText(t, format, depth, i + 1, tail)
  }

  function MemberLead(format: bool): ByteString {
    if format then [NEWLINE] else []
  }

  lemma SkipObjectEnd(lead: ByteString, format: bool, depth: nat, tail: ByteString)
    requires lead == [] || lead == [NEWLINE]
    ensures Skip(lead + ObjectEnd(format, depth, tail)) == [CLOSE_OBJECT] + tail
  {
    var indent := if format then Tabs(depth) else [];
    var close := [CLOSE_OBJECT] + tail;
    SkipBlanks(lead + indent, close);
    hide Skip, Tabs;
    assert lead + (indent + close) == (lead + indent) + close;
  }

  lemma MemberTextStart(t: Json, format: bool, depth: nat, i: nat, lead: ByteString, tail: ByteString)
    requires t.Object? && Printable(t) && i < |t.members| && (lead == [] || lead == [NEWLINE])
    ensures var member := t.members[i];
            var front := Render(member.value, format, depth + 1) + AfterMember(t, format, depth, i, tail);
            && ParseKey(lead + MembersText(t, format, depth, i, tail)) == Some((member.key, front))
            && StartsWith(Skip(lead + MembersText(t, format, depth, i, tail)), QUOTE)
  {
    var member := t.members[i];
    var front := Render(member.value, format, depth + 1) + AfterMember(t, format, depth, i, tail);
    DeepestMemberStep(t, i);
    RenderStart(member.value, format, depth + 1);
    MemberTextSplit(t, format, depth, i, tail);
    assert 0 !in member.key;
    hide *;
    ParseKeyText(member.key, format, depth + 1, lead, front);
  }

  lemma MemberTextSplit(t: Json, format: bool, depth: nat, i: nat, tail: ByteString)
    requires t.Object? && i < |t.members|
    ensures MembersText(t, format, depth, i, tail) ==
            KeyText(t.members[i].key, format, depth + 1) +
            (Render(t.members[i].value, format, depth + 1) + AfterMember(t, format, depth, i, tail))
  {
    var key, value := KeyText(t.members[i].key, format, depth + 1), Render(t.members[i].value, format, depth + 1);
    var end, rest := MemberEnd(format, i + 1 < |t.members|), RenderMembers(t, format, depth + 1, i + 1);
    assert RenderMembers(t, format, depth + 1, i) == key + value + end + rest;
    hide *;
    Regroup(key, value, end, rest, ObjectEnd(format, depth, tail));
  }

  lemma ParseKeyText(key: ByteString, format: bool, depth: nat, lead: ByteString, value: ByteString)
    requires 0 !in key && (lead == [] || lead == [NEWLINE]) && value != [] && value[0] > 32
    ensures ParseKey(lead + (KeyText(key, format, depth) + value)) == Some((key, value))
    ensures StartsWith(Skip(lead + (KeyText(key, format, depth) + value)), QUOTE)
  {
    var indent := if format then Tabs(depth) else [];
    var space: ByteString := if format then [TAB] else [];
    var colon := [COLON] + (space + value);
    assert forall i | 0 <= i < |lead + indent| :: (lead + indent)[i] <= 32;
    KeyTextSplit(key, format, depth, lead, value);
    QuotedText(key, colon);
    QuotedStart(key, colon);
    KeyStep(lead + (KeyText(key, format, depth) + value), key, colon, space + value);
    hide *;
    SkipBlanks(lead + indent, Quoted(key) + colon);
    SkipBlanks([], colon);
    assert [] + colon == colon;
    SkipBlanks(space, value);
  }

  lemma KeyStep(s: ByteString, key: ByteString, colon: ByteString, rest: ByteString)
    requires colon == [COLON] + rest
    ensures ParseString(Skip(s)) == Some((key, colon)) && Skip(colon) == colon ==>
              ParseKey(s) == Some((key, Skip(rest)))
  {
    assert colon[1..] == rest;
    hide ParseString, Skip;
  }

  lemma QuotedStart(text: ByteString, tail: ByteString)
    ensures (Quoted(text) + tail)[0] == QUOTE && StartsWith(Quoted(text) + tail, QUOTE)
  {
    hide EscapeText;
  }

  lemma KeyTextSplit(key: ByteString, format: bool, depth: nat, lead: ByteString, value: ByteString)
    ensures var indent := if format then Tabs(depth) else [];
            var space: ByteString := if format then [TAB] else [];
            lead + (KeyText(key, format, depth) + value) ==
            (lead + indent) + (Quoted(key) + ([COLON] + (space + value)))
  {
    hide *;
    KeyTextParts(key, format, depth);
    SixParts(lead, if format then Tabs(depth) else [], Quoted(key), [COLON], if format then [TAB] else [], value);
  }

  lemma KeyTextParts(key: ByteString, format: bool, depth: nat)
    ensures KeyText(key, format, depth) ==
            (if format then Tabs(depth) else []) + Quoted(key) + ([COLON] + if format then [TAB] else [])
  {
    hide Quoted, Tabs;
  }

  lemma SixParts(a: ByteString, b: ByteString, c: ByteString, d: ByteString, e: ByteString, f: ByteString)
    ensures a + (b + c + (d + e) + f) == (a + b) + (c + (d + (e + f)))
  {
  }

  lemma RenderNoMembers(t: Json, format: bool, depth: nat)
    requires t.Object?
    ensures RenderMembers(t, format, depth, |t.members|) == []
  {
  }

  lemma MemberTextEnd(t: Json, format: bool, depth: nat, i: nat, tail: ByteString)
    requires t.Object? && i < |t.members|
    ensures var after := AfterMember(t, format, depth, i, tail);
            && Stops(after)
            && (if i + 1 < |t.members|
                then Skip(after) == [COMMA] + (MemberLead(format) + MembersText(t, format, depth, i + 1, tail))
                else Skip(after) == [CLOSE_OBJECT] + tail)
  {
    var after := AfterMember(t, format, depth, i, tail);
    var next := MembersText(t, format, depth, i + 1, tail);
    LeadForms(format);
    if i + 1 < |t.members| {
      hide *;
      MemberSeparator(format, next);
    } else {
      RenderNoMembers(t, format, depth + 1);
      assert next == [] + ObjectEnd(format, depth, tail) == ObjectEnd(format, depth, tail);
      SkipObjectEnd(MemberLead(format), format, depth, tail);
      hide *;
      LastMember(format, depth, tail);
    }
  }

  lemma MemberSeparator(format: bool, rest: ByteString)
    ensures var after := MemberEnd(format, true) + rest;
            Stops(after) && Skip(after) == [COMMA] + (MemberLead(format) + rest)
  {
    var after := MemberEnd(format, true) + rest;
    assert after == [COMMA] + (MemberLead(format) + rest);
    SkipNothing(after);
    hide Skip;
  }

  lemma LastMember(format: bool, depth: nat, tail: ByteString)
    ensures MemberEnd(format, false) == MemberLead(format)
    ensures Stops(MemberEnd(format, false) + ObjectEnd(format, depth, tail))
  {
    assert MemberEnd(format, false) == MemberLead(format);
  }

  lemma MembersStep(
    s: ByteString, depth: nat, key: ByteString, front: ByteString, value: Json, after: ByteString, next: Byte,
        rest: ByteString)
    requires ParseKey(s) == Some((key, front)) && ParseValue(front, depth) == Some((value, after))
    requires Skip(after) == [next] + rest
    ensures next == CLOSE_OBJECT ==> ParseMembers(s, depth) == Some(([Member(key, value)], rest))
    ensures next == COMMA ==> ParseMembers(s, depth) == Cons(Member(key, value), ParseMembers(rest, depth))
  {
    var tail := Skip(after);
    assert tail[1..] == rest;
    hide ParseValue, ParseKey, Skip, Cons;
  }

  lemma MembersFail(s: ByteString, depth: nat, key: ByteString, front: ByteString)
    requires ParseKey(s) == Some((key, front)) && ParseValue(front, depth) == None
    ensures ParseMembers(s, depth) == None
  {
    hide ParseValue, ParseKey, Skip, Cons;
  }

  lemma DeepestMemberStep(t: Json, i: nat)
    requires t.Object?
    ensures i < |t.members| ==> DeepestMember(t, i) == Max(Nesting(t.members[i].value), DeepestMember(t, i + 1))
    ensures DeepestMember(t, |t.members|) == 0
    ensures Nesting(t) == 1 + DeepestMember(t, 0)
    ensures Printable(t) && i < |t.members| ==> Printable(t.members[i].value)
  {
  }

  lemma {:induction false} ParseRenderedMembers(
    t: Json, format: bool, depth: nat, nesting: nat, i: nat, lead: ByteString, tail: ByteString)
    requires t.Object? && Printable(t) && i < |t.members| && nesting <= NESTING_LIMIT
    requires lead == [] || lead == [NEWLINE]
    ensures ParseMembers(lead + MembersText(t, format, depth, i, tail), nesting) ==
            if nesting + DeepestMember(t, i) <= NESTING_LIMIT then Some((t.members[i..], tail)) else None
    decreases t, 0, |t.members| - i
  {
    hide *;
    var s := lead + MembersText(t, format, depth, i, tail);
    var member := t.members[i];
    var after := AfterMember(t, format, depth, i, tail);
    var front := Render(member.value, format, depth + 1) + after;
    MemberTextStart(t, format, depth, i, lead, tail);
    MemberTextEnd(t, format, depth, i, tail);
    DeepestMemberStep(t, i);
    ParseRendered(member.value, format, depth + 1, nesting, after);
    MaxIsMax(Nesting(member.value), if i + 1 < |t.members| then DeepestMember(t, i + 1) else 0);
    ItemsFrom(t.members, i);
    if nesting + Nesting(member.value) > NESTING_LIMIT {
      MembersFail(s, nesting, member.key, front);
    } else if i + 1 < |t.members| {
      LeadForms(format);
      var rest := MemberLead(format) + MembersText(t, format, depth, i + 1, tail);
      ParseRenderedMembers(t, format, depth, nesting, i + 1, MemberLead(format), tail);
      MembersStep(s, nesting, member.key, front, member.value, after, COMMA, rest);
      ConsIs(member, ParseMembers(rest, nesting));
    } else {
      MembersStep(s, nesting, member.key, front, member.value, after, CLOSE_OBJECT, tail);
    }
  }

  lemma ObjectStep(s: ByteString, depth: nat, inside: ByteString, tail: ByteString)
    requires s == [OPEN_OBJECT] + inside && inside != []
    ensures depth >= NESTING_LIMIT ==> ParseValue(s, depth) == None
    ensures depth < NESTING_LIMIT && Skip(inside) == [CLOSE_OBJECT] + tail ==>
              ParseValue(s, depth) == Some((Object([]), tail))
    ensures depth < NESTING_LIMIT && StartsWith(Skip(inside), QUOTE) ==>
              ParseValue(s, depth) == AsObject(ParseMembers(inside, depth + 1))
  {
    assert s[1..] == inside;
    hide *;
    BraceOpensObject(s, depth);
    InsideObject(s, depth, inside, tail);
    ParseMembersSkip(inside, depth + 1);
  }

  lemma BraceOpensObject(s: ByteString, depth: nat)
    requires s != [] && s[0] == OPEN_OBJECT
    ensures ParseValue(s, depth) == ParseObject(s, depth)
  {
    hide ParseArray, ParseObject, ParseString, ParseNumber, NULL, FALSE, TRUE;
    NotAWord(s);
  }

  lemma InsideObject(s: ByteString, depth: nat, inside: ByteString, tail: ByteString)
    requires s != [] && s[1..] == inside
    ensures depth >= NESTING_LIMIT ==> ParseObject(s, depth) == None
    ensures depth < NESTING_LIMIT && Skip(inside) == [CLOSE_OBJECT] + tail ==>
              ParseObject(s, depth) == Some((Object([]), tail))
    ensures depth < NESTING_LIMIT && StartsWith(Skip(inside), QUOTE) ==>
              ParseObject(s, depth) == AsObject(ParseMembers(Skip(inside), depth + 1))
  {
    hide Skip, ParseMembers, AsObject;
    assert ([CLOSE_OBJECT] + tail)[1..] == tail;
  }

  lemma ParseMembersSkip(s: ByteString, depth: nat)
    ensures ParseMembers(Skip(s), depth) == ParseMembers(s, depth)
  {
    SkipTwice(s);
    hide Skip, ParseValue, ParseString, Cons;
  }

  lemma {:induction false} ParseRenderedObject(t: Json, format: bool, depth: nat, nesting: nat, tail: ByteString)
    requires t.Object? && Printable(t) && Stops(tail) && nesting <= NESTING_LIMIT
    ensures ParseValue(Render(t, format, depth) + tail, nesting) ==
            if nesting + Nesting(t) <= NESTING_LIMIT then Some((t, tail)) else None
    decreases t, 0, |t.members| + 1
  {
    hide *;
    ObjectRendering(t, format, depth, tail);
    var lead := MemberLead(format);
    var inside := lead + MembersText(t, format, depth, 0, tail);
    var s := Render(t, format, depth) + tail;
    DeepestMemberStep(t, 0);
    ObjectStep(s, nesting, inside, tail);
    if t.members != [] && nesting < NESTING_LIMIT {
      LeadForms(format);
      MemberTextStart(t, format, depth, 0, lead, tail);
      ParseRenderedMembers(t, format, depth, nesting + 1, 0, lead, tail);
      ItemsFrom(t.members, 0);
      Wrapped(None, ParseMembers(inside, nesting + 1));
    }
  }

  lemma ObjectRendering(t: Json, format: bool, depth: nat, tail: ByteString)
    requires t.Object?
    ensures var inside := MemberLead(format) + MembersText(t, format, depth, 0, tail);
            && inside != [] && Render(t, format, depth) + tail == [OPEN_OBJECT] + inside
            && (t.members == [] ==> Skip(inside) == [CLOSE_OBJECT] + tail)
  {
    ObjectTextSplit(t, format, depth, tail);
    var inside := MemberLead(format) + MembersText(t, format, depth, 0, tail);
    LeadForms(format);
    if t.members == [] {
      RenderNoMembers(t, format, depth + 1);
      assert MembersText(t, format, depth, 0, tail) == [] + ObjectEnd(format, depth, tail) ==
          ObjectEnd(format, depth, tail);
      hide *;
      SkipObjectEnd(MemberLead(format), format, depth, tail);
    }
    ObjectTextNonEmpty(t, format, depth, tail);
  }

  lemma ObjectTextNonEmpty(t: Json, format: bool, depth: nat, tail: ByteString)
    requires t.Object?
    ensures MembersText(t, format, depth, 0, tail) != []
  {
    hide RenderMembers, Tabs;
  }

  lemma ObjectTextSplit(t: Json, format: bool, depth: nat, tail: ByteString)
    requires t.Object?
    ensures Render(t, format, depth) + tail ==
            [OPEN_OBJECT] + (MemberLead(format) + MembersText(t, format, depth, 0, tail))
  {
    hide *;
    var members, end := RenderMembers(t, format, depth + 1, 0), if format then Tabs(depth) else [];
    ObjectText(t, format, depth);
    MembersTextIs(t, format, depth, tail);
    SixGrouped([OPEN_OBJECT], MemberLead(format), members, end, [CLOSE_OBJECT], tail);
  }

  lemma MembersTextIs(t: Json, format: bool, depth: nat, tail: ByteString)
    requires t.Object?
    ensures MembersText(t, format, depth, 0, tail) ==
            RenderMembers(t, format, depth + 1, 0) + ((if format then Tabs(depth) else []) + ([CLOSE_OBJECT] + tail))
  {
    hide RenderMembers, Tabs;
  }

  lemma SixGrouped(a: ByteString, b: ByteString, c: ByteString, d: ByteString, e: ByteString, f: ByteString)
    ensures a + b + c + d + e + f == a + (b + (c + (d + (e + f))))
  {
  }

  lemma ObjectText(t: Json, format: bool, depth: nat)
    requires t.Object?
    ensures Render(t, format, depth) == [OPEN_OBJECT] + MemberLead(format) + RenderMembers(t, format, depth + 1, 0) +
            (if format then Tabs(depth) else []) + [CLOSE_OBJECT]
  {
    hide RenderMembers, Tabs;
  }

  // ----- Documents -----

  /**
   For every printable tree, formatted or not: parsing the printed text gives back the same tree and
   consumes the text up to its terminating zero exactly when the nesting is within the limit.
   */
  lemma DocumentRoundTrip(t: Json, format: bool, requireNul: bool)
    requires Printable(t)
    ensures ParseDocument(Render(t, format, 0) + [0], requireNul) ==
            if Nesting(t) <= 1000 then Some((t, [0])) else None
  {
    assert Stops([0]);
    hide *;
    RenderStart(t, format, 0);
    ParseRendered(t, format, 0, 0, [0]);
    DocumentStep(Render(t, format, 0) + [0], requireNul, t);
  }

  lemma DocumentStep(s: ByteString, requireNul: bool, t: Json)
    requires s != [] && s[0] > 32 && s[0] != 0xEF
    ensures ParseValue(s, 0) == None ==> ParseDocument(s, requireNul) == None
    ensures ParseValue(s, 0) == Some((t, [0])) ==> ParseDocument(s, requireNul) == Some((t, [0]))
  {
    hide ParseValue;
    assert SkipBom(s) == s;
  }
}
