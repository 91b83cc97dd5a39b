/** The recursive-descent parser: a buffer whose offset and depth move, proved against the reading functions. */
module JsonParser {
  import opened Bytes
  import opened Wrappers
  import opened JsonNumber
  import opened JsonString
  import opened JsonText
  import opened JsonNode
  import opened Memory
  import JsonTree

  /** A node without children. */
  ghost predicate Blank(n: Node)
    reads n`child, n`kids, n`repr
  {
    n.child == null && n.kids == [] && n.repr == {n}
  }

  /** The children read so far, not yet given to their parent. */
  ghost predicate Listed(head: Node?, last: Node?, h: JsonTree.Household)
    reads h.repr - {h.parent}, h.kids`next, h.kids`prev
  {
    && JsonTree.Family(h) && JsonTree.OpenList(head, h.kids)
    && last == (if |h.kids| > 0 then h.kids[|h.kids| - 1] else null)
  }

  function Values(members: seq<Member>): (items: seq<Json>)
    ensures |items| == |members|
  {
    seq(|members|, i requires 0 <= i < |members| => members[i].value)
  }

  lemma ValuesGrow(members: seq<Member>, member: Member)
    ensures Values(members + [member]) == Values(members) + [member.value]
  {
  }

  class ParseBuffer {
    const content: ByteString
    const memory: Allocator
    var offset: nat
    var depth: nat

    ghost predicate Valid()
      reads `offset
    {
      offset <= |content|
    }

    /** The input that is still to be read. */
    ghost function Rest(): ByteString
      reads `offset
      requires Valid()
    {
      content[offset..]
    }

    constructor (content: ByteString, memory: Allocator)
      ensures this.content == content && this.memory == memory && offset == 0 && depth == 0
    {
      this.content := content;
      this.memory := memory;
      offset := 0;
      depth := 0;
    }

    predicate At(b: Byte)
      reads `offset
    {
      offset < |content| && content[offset] == b
    }

    /** Where a failure is reported: at the offset, or at the last byte when everything was read. */
    function ErrorPosition(): (position: nat)
      reads `offset
      ensures position < |content| || content == []
    {
      if offset < |content| then offset else if content == [] then 0 else |content| - 1
    }

    method SkipWhitespace()
      requires Valid()
      modifies `offset
      ensures Valid() && offset >= old(offset) && Rest() == Skip(old(Rest()))
    {
      if offset >= |content| {
        return;
      }
      ghost var start := offset;
      while offset < |content| && content[offset] <= 32
        invariant start <= offset <= |content|
        invariant TrimBlanks(content[offset..]) == TrimBlanks(content[start..])
      {
        assert content[offset..][1..] == content[offset + 1..];
        offset := offset + 1;
      }
      if offset == |content| {
        offset := offset - 1;
        assert content[start..][|content[start..]| - 1..] == content[offset..];
      }
    }

    method ParseNumber() returns (r: Option<real>)
      requires Valid()
      modifies `offset
      ensures Valid()
      ensures match JsonText.ParseNumber(old(Rest()))
              case None => r == None && offset == old(offset)
              case Some((value, rest)) => r == Some(value) && Rest() == rest && offset > old(offset)
    {
      hide Strtod, NumberText;
      var text := CopyNumber();
      match Strtod(text)
      case None => r := None;
      case Some((value, length)) =>
        ghost var rest := Rest()[length..];
        offset := offset + length;
        assert Rest() == rest;
        r := Some(value);
    }

    /** The number bytes at the offset, at most as many as the conversion buffer holds. */
    method CopyNumber() returns (text: ByteString)
      requires Valid()
      ensures text == NumberText(Rest(), NUMBER_LIMIT)
    {
      text := [];
      var i := 0;
      ghost var rest := Rest();
      assert rest[0..] == rest && text + NumberText(rest, NUMBER_LIMIT) == NumberText(rest, NUMBER_LIMIT);
      hide NumberText;
      while i < NUMBER_LIMIT && offset + i < |content| && NumberByte(content[offset + i])
        invariant 0 <= i <= NUMBER_LIMIT && offset + i <= |content|
        invariant text + NumberText(rest[i..], NUMBER_LIMIT - i) == NumberText(rest, NUMBER_LIMIT)
      {
        NumberTextNext(rest, i, text);
        text := text + [content[offset + i]];
        i := i + 1;
      }
      NumberTextEnds(rest, i);
      assert text + [] == text;
    }

    /**
     The byte at the offset is looked at even where the buffer has ended, but whatever it is nothing is read:
     no closing quote can follow.
     */
    method ParseString() returns (r: Option<ByteString>)
      requires Valid()
      modifies `offset, memory
      ensures Valid() && memory.Refused() >= old(memory.Refused())
      ensures match JsonText.ParseString(old(Rest()))
              case None => r == None
              case Some((text, rest)) =>
                && r == (if memory.Refused() == old(memory.Refused()) then Some(text) else None)
                && (r.Some? ==> Rest() == rest && offset > old(offset))
    {
      hide Decode, LiteralEnd, Skipped, Allocator.Refused;
      var first: Byte := *;
      var body := [];
      if offset < |content| {
        first, body := content[offset], content[offset + 1..];
        assert body == Rest()[1..];
      }
      if first != QUOTE {
        return None;
      }
      var end, skipped := FirstPass(body);
      if end.None? {
        return None;
      }
      var granted := memory.Ask();
      if !granted {
        return None;
      }
      var bytes := SecondPass(body, end.value, skipped);
      if bytes.None? {
        return None;
      }
      ghost var rest := body[end.value + 1..];
      offset := offset + 1 + end.value + 1;
      assert Rest() == rest;
      r := Some(CString(bytes.value));
    }

    /** Fills a node in; what fails is exactly what cannot be read, or memory refused on the way. */
    method ParseValue(item: Node) returns (ok: bool)
      requires Valid() && Blank(item)
      modifies `offset, `depth, memory, item`kind, item`number, item`text, item`child, item`kids, item`repr
      ensures Valid() && memory.Refused() >= old(memory.Refused()) && fresh(item.repr - {item})
      ensures match JsonText.ParseValue(old(Rest()), old(depth))
              case None => !ok
              case Some((t, rest)) =>
                && (ok <==> memory.Refused() == old(memory.Refused()))
                && (ok ==> JsonTree.Stands(item, t) && Rest() == rest && depth == old(depth) && offset > old(offset))
      decreases |content| - offset, 1
    {
      hide JsonText.ParseString, JsonText.ParseNumber, JsonText.ParseArray, JsonText.ParseObject, Allocator.Refused,
        JsonTree.Stands;
      if Word(NULL) {
        item.kind := NullKind;
        offset := offset + 4;
        LeafStands(item);
        return true;
      }
      if Word(FALSE) {
        item.kind := FalseKind;
        offset := offset + 5;
        LeafStands(item);
        return true;
      }
      if Word(TRUE) {
        item.kind := TrueKind;
        offset := offset + 4;
        LeafStands(item);
        return true;
      }
      if At(QUOTE) {
        var text := ParseString();
        if text.None? {
          return false;
        }
        item.kind, item.text := StringKind, text.value;
        LeafStands(item);
        return true;
      }
      if offset < |content| && (content[offset] == MINUS || IsDigit(content[offset])) {
        var number := ParseNumber();
        if number.None? {
          return false;
        }
        item.kind, item.number := NumberKind, number.value;
        LeafStands(item);
        return true;
      }
      if At(OPEN_ARRAY) {
        ok := ParseArray(item);
        return;
      }
      if At(OPEN_OBJECT) {
        ok := ParseObject(item);
        return;
      }
      return false;
    }

    predicate Word(word: ByteString)
      reads `offset
      requires Valid()
      ensures Word(word) <==> word <= Rest()
    {
      offset + |word| <= |content| && content[offset..offset + |word|] == word
    }

    method ParseArray(item: Node) returns (ok: bool)
      requires Valid() && At(OPEN_ARRAY) && Blank(item)
      modifies `offset, `depth, memory, item`kind, item`child, item`kids, item`repr
      ensures Valid() && memory.Refused() >= old(memory.Refused()) && fresh(item.repr - {item})
      ensures match JsonText.ParseArray(old(Rest()), old(depth))
              case None => !ok
              case Some((t, rest)) =>
                && (ok <==> memory.Refused() == old(memory.Refused()))
                && (ok ==> JsonTree.Stands(item, t) && Rest() == rest && depth == old(depth) && offset > old(offset))
      decreases |content| - offset, 0
    {
      hide Skip, ParseItems, Allocator.Refused, Listed, JsonTree.Stands, Values;
      if depth >= NESTING_LIMIT {
        return false;
      }
      depth := depth + 1;
      ghost var inside := Rest()[1..];
      offset := offset + 1;
      assert Rest() == inside;
      SkipWhitespace();
      var head: Node?, last: Node? := null, null;
      ghost var h := NoChildren(item);
      if !At(CLOSE_ARRAY) {
        if offset >= |content| {
          offset := offset - 1;
          return false;
        }
        // step back to the byte in front of the first element
        offset := offset - 1;
        ok, head, last, h := ParseElements(item);
        if !ok {
          return false;
        }
      }
      LastInside(head, last, h);
      assert Rest()[1..] == content[offset + 1..];
      CloseArray(item, head, last, h);
      return true;
    }

    /** The list is complete, and the buffer is on the closing byte. */
    method CloseArray(item: Node, head: Node?, last: Node?, ghost h: JsonTree.Household)
      requires At(CLOSE_ARRAY) && depth > 0 && Listed(head, last, h) && h.parent == item
      modifies `offset, `depth, item`kind, item`child, item`kids, item`repr, (if head == null then {} else {head})`prev
      ensures Valid() && Rest() == old(content[offset + 1..]) && depth == old(depth) - 1 && offset == old(offset) + 1
      ensures JsonTree.Stands(item, Array(Values(h.members))) && item.repr == h.repr
    {
      hide Listed, JsonTree.Stands, Values;
      depth := depth - 1;
      TakeItems(item, head, last, h);
      offset := offset + 1;
    }

    /** The loop over the elements; it stops on the closing bracket. */
    method ParseElements(ghost item: Node) returns (ok: bool, head: Node?, last: Node?, ghost h: JsonTree.Household)
      requires offset < |content|
      modifies `offset, `depth, memory
      ensures Valid() && memory.Refused() >= old(memory.Refused())
      ensures ok ==> Listed(head, last, h) && h.parent == item && fresh(h.repr - {item})
      ensures match ParseItems(old(content[offset + 1..]), old(depth))
              case None => !ok
              case Some((items, rest)) =>
                && (ok <==> memory.Refused() == old(memory.Refused()))
                && (ok ==>
                     Values(h.members) == items && At(CLOSE_ARRAY) && Rest()[1..] == rest &&
                     depth == old(depth) && offset > old(offset))
      decreases |content| - offset - 1, 5
    {
      hide JsonText.ParseValue, Skip, Onto, Allocator.Refused, Listed, Values;
      ghost var start, level := offset, depth;
      ghost var expected := ParseItems(content[offset + 1..], depth);
      head, last := null, null;
      h := NoChildren(item);
      OntoNothing(expected);
      var more := true;
      while more
        invariant start <= offset && Valid() && depth == level && memory.Refused() == old(memory.Refused())
        invariant Listed(head, last, h) && h.parent == item && item in h.repr && fresh(h.repr - {item})
        invariant more ==>
                    offset < |content| &&
                    expected == Onto(Values(h.members), ParseItems(content[offset + 1..], level))
        invariant !more ==> offset > start &&
                            expected == if At(CLOSE_ARRAY) then Some((Values(h.members), Rest()[1..])) else None
        decreases |content| - offset, more
      {
        ghost var front := h.members;
        OntoNone<Json>(Values(front));
        ok, head, last, h := ParseElement(head, last, h);
        if !ok {
          return;
        }
        more := At(COMMA);
        assert more ==> content[offset + 1..] == Rest()[1..];
        ghost var value := h.members[|front|].value;
        ValuesGrow(front, h.members[|front|]);
        OntoCons(Values(front), value, if more then ParseItems(Rest()[1..], level) else Some(([], [])), Rest());
      }
      ok := At(CLOSE_ARRAY);
    }

    /** Another item behind those of the list. */
    method NewItem(head: Node?, last: Node?, ghost h: JsonTree.Household) returns (item: Node?, first: Node?)
      requires Listed(head, last, h)
      modifies memory, (if last == null then {} else {last})`next
      ensures memory.Refused() >= old(memory.Refused()) && (item == null <==> memory.Refused() > old(memory.Refused()))
      ensures item != null ==>
                && fresh(item) && Blank(item) && item.key == []
                && JsonTree.Family(h) && JsonTree.OpenList(first, h.kids + [item])
    {
      hide *;
      ListedIs(head, last, h);
      var granted := memory.Ask();
      if !granted {
        return null, null;
      }
      var next := new Node(NullKind);
      BlankIs(next);
      first := JsonTree.Attach(head, last, next, h.kids, h);
      item := next;
    }

    /** One element behind the byte at the offset, read into a new item at the end of the list. */
    method ParseElement(head: Node?, last: Node?, ghost h: JsonTree.Household)
      returns (ok: bool, first: Node?, current: Node?, ghost longer: JsonTree.Household)
      requires offset < |content| && Listed(head, last, h) && h.parent in h.repr
      modifies `offset, `depth, memory, h.repr - {h.parent}
      ensures Valid() && memory.Refused() >= old(memory.Refused())
      ensures ok ==>
                Listed(first, current, longer) && longer.parent == h.parent && h.repr <= longer.repr &&
                fresh(longer.repr - h.repr)
      ensures match JsonText.ParseValue(Skip(old(content[offset + 1..])), old(depth))
              case None => !ok
              case Some((t, after)) =>
                && (ok <==> memory.Refused() == old(memory.Refused()))
                && (ok ==> longer.members == h.members + [Member([], t)]
                           && Rest() == Skip(after) && depth == old(depth) && offset > old(offset))
      decreases |content| - offset - 1, 4
    {
      hide JsonTree.Family, JsonTree.OpenList, JsonTree.Valid, JsonTree.Tree, Listed, JsonTree.Stands, Skip,
        JsonText.ParseValue,
        JsonText.ParseKey, ReadMember, Allocator.Refused;
      LastInside(head, last, h);
      current, first := NewItem(head, last, h);
      longer := h;
      if current == null {
        return false, first, current, longer;
      }
      ghost var parsed := JsonText.ParseValue(Skip(content[offset + 1..]), depth);
      ok := FillElement(current);
      if ok {
        longer := Include(first, current, parsed.value.0, h);
      }
    }

    /** The element behind the byte at the offset, and the blanks behind the element. */
    method FillElement(item: Node) returns (ok: bool)
      requires offset < |content| && Blank(item)
      modifies `offset, `depth, memory, item`kind, item`number, item`text, item`child, item`kids, item`repr
      ensures Valid() && memory.Refused() >= old(memory.Refused()) && fresh(item.repr - {item})
      ensures match JsonText.ParseValue(Skip(old(content[offset + 1..])), old(depth))
              case None => !ok
              case Some((t, after)) =>
                && (ok <==> memory.Refused() == old(memory.Refused()))
                && (ok ==>
                     JsonTree.Stands(item, t) && Rest() == Skip(after) && depth == old(depth) &&
                     offset > old(offset))
      decreases |content| - offset - 1, 3
    {
      hide Skip, JsonText.ParseValue, JsonTree.Stands, Blank, Allocator.Refused;
      offset := offset + 1;
      SkipWhitespace();
      ok := FillValue(item);
    }

    /** A value and the blanks behind it. */
    method FillValue(item: Node) returns (ok: bool)
      requires Valid() && Blank(item)
      modifies `offset, `depth, memory, item`kind, item`number, item`text, item`child, item`kids, item`repr
      ensures Valid() && memory.Refused() >= old(memory.Refused()) && fresh(item.repr - {item})
      ensures match JsonText.ParseValue(old(Rest()), old(depth))
              case None => !ok
              case Some((t, after)) =>
                && (ok <==> memory.Refused() == old(memory.Refused()))
                && (ok ==>
                     JsonTree.Stands(item, t) && Rest() == Skip(after) && depth == old(depth) &&
                     offset > old(offset))
      decreases |content| - offset, 2
    {
      hide Skip, JsonText.ParseValue, JsonTree.Stands, Blank, Allocator.Refused;
      ok := ParseValue(item);
      if ok {
        SkipWhitespace();
      }
    }

    method ParseObject(item: Node) returns (ok: bool)
      requires Valid() && At(OPEN_OBJECT) && Blank(item)
      modifies `offset, `depth, memory, item`kind, item`child, item`kids, item`repr
      ensures Valid() && memory.Refused() >= old(memory.Refused()) && fresh(item.repr - {item})
      ensures match JsonText.ParseObject(old(Rest()), old(depth))
              case None => !ok
              case Some((t, rest)) =>
                && (ok <==> memory.Refused() == old(memory.Refused()))
                && (ok ==> JsonTree.Stands(item, t) && Rest() == rest && depth == old(depth) && offset > old(offset))
      decreases |content| - offset, 0
    {
      hide Skip, ParseMembers, Allocator.Refused, Listed, JsonTree.Stands;
      if depth >= NESTING_LIMIT {
        return false;
      }
      depth := depth + 1;
      ghost var inside := Rest()[1..];
      offset := offset + 1;
      assert Rest() == inside;
      SkipWhitespace();
      var head: Node?, last: Node? := null, null;
      ghost var h := NoChildren(item);
      if !At(CLOSE_OBJECT) {
        if offset >= |content| {
          offset := offset - 1;
          return false;
        }
        // step back to the byte in front of the first member
        offset := offset - 1;
        ok, head, last, h := ParseMemberList(item);
        if !ok {
          return false;
        }
      }
      LastInside(head, last, h);
      assert Rest()[1..] == content[offset + 1..];
      CloseObject(item, head, last, h);
      return true;
    }

    /** The list is complete, and the buffer is on the closing byte. */
    method CloseObject(item: Node, head: Node?, last: Node?, ghost h: JsonTree.Household)
      requires At(CLOSE_OBJECT) && depth > 0 && Listed(head, last, h) && h.parent == item
      modifies `offset, `depth, item`kind, item`child, item`kids, item`repr, (if head == null then {} else {head})`prev
      ensures Valid() && Rest() == old(content[offset + 1..]) && depth == old(depth) - 1 && offset == old(offset) + 1
      ensures JsonTree.Stands(item, Object(h.members)) && item.repr == h.repr
    {
      hide Listed, JsonTree.Stands, Values;
      depth := depth - 1;
      TakeMembers(item, head, last, h);
      offset := offset + 1;
    }

    /** The loop over the members; it stops on the closing brace. */
    method ParseMemberList(ghost item: Node) returns (ok: bool, head: Node?, last: Node?, ghost h: JsonTree.Household)
      requires offset < |content|
      modifies `offset, `depth, memory
      ensures Valid() && memory.Refused() >= old(memory.Refused())
      ensures ok ==> Listed(head, last, h) && h.parent == item && fresh(h.repr - {item})
      ensures match ParseMembers(old(content[offset + 1..]), old(depth))
              case None => !ok
              case Some((members, rest)) =>
                && (ok <==> memory.Refused() == old(memory.Refused()))
                && (ok ==>
                     h.members == members && At(CLOSE_OBJECT) && Rest()[1..] == rest && depth == old(depth) &&
                     offset > old(offset))
      decreases |content| - offset - 1, 5
    {
      hide JsonText.ParseValue, JsonText.ParseKey, Skip, Onto, Allocator.Refused, Listed;
      ghost var start, level := offset, depth;
      ghost var expected := ParseMembers(content[offset + 1..], depth);
      head, last := null, null;
      h := NoChildren(item);
      OntoNothing(expected);
      var more := true;
      while more
        invariant start <= offset && Valid() && depth == level && memory.Refused() == old(memory.Refused())
        invariant Listed(head, last, h) && h.parent == item && item in h.repr && fresh(h.repr - {item})
        invariant more ==> offset < |content| && expected == Onto(h.members, ParseMembers(content[offset + 1..], level))
        invariant !more ==> offset > start &&
                            expected == if At(CLOSE_OBJECT) then Some((h.members, Rest()[1..])) else None
        decreases |content| - offset, more
      {
        ghost var front := h.members;
        OntoNone<Member>(front);
        ok, head, last, h := ParseMember(head, last, h);
        if !ok {
          return;
        }
        more := At(COMMA);
        assert more ==> content[offset + 1..] == Rest()[1..];
        ghost var member := h.members[|front|];
        OntoCons(front, member, if more then ParseMembers(Rest()[1..], level) else Some(([], [])), Rest());
      }
      ok := At(CLOSE_OBJECT);
    }

    /** One member behind the byte at the offset, read into a new item at the end of the list. */
    method ParseMember(head: Node?, last: Node?, ghost h: JsonTree.Household)
      returns (ok: bool, first: Node?, current: Node?, ghost longer: JsonTree.Household)
      requires offset < |content| && Listed(head, last, h) && h.parent in h.repr
      modifies `offset, `depth, memory, h.repr - {h.parent}
      ensures Valid() && memory.Refused() >= old(memory.Refused())
      ensures ok ==>
                Listed(first, current, longer) && longer.parent == h.parent && h.repr <= longer.repr &&
                fresh(longer.repr - h.repr)
      ensures match ReadMember(old(content[offset + 1..]), old(depth))
              case None => !ok
              case Some((member, after)) =>
                && (ok <==> memory.Refused() == old(memory.Refused()))
                && (ok ==> longer.members == h.members + [member]
                           && Rest() == Skip(after) && depth == old(depth) && offset > old(offset))
      decreases |content| - offset - 1, 4
    {
      hide JsonTree.Family, JsonTree.OpenList, JsonTree.Valid, JsonTree.Tree, Listed, JsonTree.Stands, Skip,
        JsonText.ParseValue,
        JsonText.ParseKey, ReadMember, Allocator.Refused;
      LastInside(head, last, h);
      current, first := NewItem(head, last, h);
      longer := h;
      if current == null {
        return false, first, current, longer;
      }
      ghost var parsed := ReadMember(content[offset + 1..], depth);
      ok := FillMember(current);
      if ok {
        longer := Include(first, current, parsed.value.0.value, h);
      }
    }

    /** The member behind the byte at the offset, and the blanks behind its value. */
    method FillMember(item: Node) returns (ok: bool)
      requires offset < |content| && Blank(item)
      modifies `offset, `depth, memory, item`key, item`kind, item`number, item`text, item`child, item`kids, item`repr
      ensures Valid() && memory.Refused() >= old(memory.Refused()) && fresh(item.repr - {item})
      ensures match ReadMember(old(content[offset + 1..]), old(depth))
              case None => !ok
              case Some((member, after)) =>
                && (ok <==> memory.Refused() == old(memory.Refused()))
                && (ok ==> item.key == member.key && JsonTree.Stands(item, member.value)
                           && Rest() == Skip(after) && depth == old(depth) && offset > old(offset))
      decreases |content| - offset - 1, 3
    {
      hide Skip, JsonText.ParseKey, JsonText.ParseValue, ReadMember, JsonTree.Stands, Blank, Allocator.Refused;
      MemberIsRead(content[offset + 1..], depth);
      BlankIs(item);
      var key := ParseKeyBehind();
      if key.None? {
        return false;
      }
      item.key := key.value;
      ok := FillValue(item);
    }

    /** The key behind the byte at the offset. */
    method ParseKeyBehind() returns (r: Option<ByteString>)
      requires offset < |content|
      modifies `offset, memory
      ensures Valid() && memory.Refused() >= old(memory.Refused())
      ensures match JsonText.ParseKey(old(content[offset + 1..]))
              case None => r == None
              case Some((key, rest)) =>
                && r == (if memory.Refused() == old(memory.Refused()) then Some(key) else None)
                && (r.Some? ==> Rest() == rest && offset > old(offset))
    {
      hide JsonText.ParseKey, Allocator.Refused;
      offset := offset + 1;
      r := ParseKey();
    }

    /** The name of a member and its colon, leaving the buffer in front of the value. */
    method ParseKey() returns (r: Option<ByteString>)
      requires Valid()
      modifies `offset, memory
      ensures Valid() && memory.Refused() >= old(memory.Refused())
      ensures match JsonText.ParseKey(old(Rest()))
              case None => r == None
              case Some((key, rest)) =>
                && r == (if memory.Refused() == old(memory.Refused()) then Some(key) else None)
                && (r.Some? ==> Rest() == rest && offset > old(offset))
    {
      hide Skip, JsonText.ParseString, Allocator.Refused;
      SkipWhitespace();
      r := ParseString();
      if r.None? {
        return None;
      }
      SkipWhitespace();
      if !At(COLON) {
        return None;
      }
      ghost var rest := Rest()[1..];
      offset := offset + 1;
      assert Rest() == rest;
      SkipWhitespace();
    }
  }

  // ----- Items of a list -----

  lemma BlankIs(n: Node)
    ensures Blank(n) <==> n.child == null && n.kids == [] && n.repr == {n}
  {
  }

  ghost function NoChildren(item: Node): (h: JsonTree.Household)
    ensures Listed(null, null, h) && h.parent == item && h.repr == {item} && h.members == [] && Values(h.members) == []
  {
    JsonTree.Household(item, [], {item}, [])
  }

  lemma ListedIs(head: Node?, last: Node?, h: JsonTree.Household)
    requires Listed(head, last, h)
    ensures JsonTree.Family(h) && JsonTree.OpenList(head, h.kids)
    ensures last == if |h.kids| > 0 then h.kids[|h.kids| - 1] else null
    ensures h.parent !in h.kids && forall k | k in h.kids :: k in h.repr
  {
    JsonTree.FamilyInside(h, head);
  }

  lemma LastInside(head: Node?, last: Node?, h: JsonTree.Household)
    requires Listed(head, last, h)
    ensures last != null ==> last in h.repr - {h.parent}
    ensures head != null ==> head in h.repr - {h.parent}
  {
    JsonTree.FamilyInside(h, head);
  }

  /** An item that has been read belongs to the list. */
  lemma Include(first: Node?, current: Node, t: Json, h: JsonTree.Household) returns (longer: JsonTree.Household)
    requires JsonTree.Family(h) && JsonTree.OpenList(first, h.kids + [current])
    requires JsonTree.Stands(current, t) && current.repr !! h.repr
    ensures Listed(first, current, longer) && longer.parent == h.parent && longer.repr == h.repr + current.repr
    ensures longer.members == h.members + [Member(current.key, t)]
  {
    JsonTree.Grown(h, current);
    longer := JsonTree.Joined(h, current);
  }

  lemma LeafStands(n: Node)
    requires Blank(n) && n.kind != ArrayKind && n.kind != ObjectKind
    ensures JsonTree.Stands(n, match n.kind
                      case NullKind => Null
                      case FalseKind => False
                      case TrueKind => True
                      case NumberKind => Number(n.number)
                      case _ => String(n.text))
  {
    JsonTree.LeafValid(n);
  }

  method TakeItems(item: Node, head: Node?, last: Node?, ghost h: JsonTree.Household)
    requires Listed(head, last, h) && h.parent == item
    modifies item`kind, item`child, item`kids, item`repr, (if head == null then {} else {head})`prev
    ensures JsonTree.Stands(item, Array(Values(h.members))) && item.repr == h.repr
  {
    hide JsonTree.Family, JsonTree.OpenList, JsonTree.Holds, JsonTree.Stands, Values;
    item.kind := ArrayKind;
    JsonTree.Adopt(item, head, last, h);
    HoldsItems(item, h.members);
  }

  lemma {:induction false} HoldsItems(item: Node, members: seq<Member>)
    requires JsonTree.Holds(item, members) && item.kind == ArrayKind
    ensures JsonTree.Stands(item, Array(Values(members)))
  {
    assert JsonTree.Items(item, 0) == Values(members);
  }

  method TakeMembers(item: Node, head: Node?, last: Node?, ghost h: JsonTree.Household)
    requires Listed(head, last, h) && h.parent == item
    modifies item`kind, item`child, item`kids, item`repr, (if head == null then {} else {head})`prev
    ensures JsonTree.Stands(item, Object(h.members)) && item.repr == h.repr
  {
    hide JsonTree.Family, JsonTree.OpenList, JsonTree.Holds, JsonTree.Stands;
    item.kind := ObjectKind;
    JsonTree.Adopt(item, head, last, h);
    HoldsMembers(item, h.members);
  }

  lemma {:induction false} HoldsMembers(item: Node, members: seq<Member>)
    requires JsonTree.Holds(item, members) && item.kind == ObjectKind
    ensures JsonTree.Stands(item, Object(members))
  {
  }

  /** The member at the front: its key and value, and what follows the value. */
  ghost function ReadMember(s: ByteString, depth: nat): Option<(Member, ByteString)> {
    match JsonText.ParseKey(s)
    case None => None
    case Some((key, afterKey)) =>
      match JsonText.ParseValue(afterKey, depth)
      case None => None
      case Some((value, after)) => Some((Member(key, value), after))
  }

  lemma MemberIsRead(s: ByteString, depth: nat)
    ensures var key := JsonText.ParseKey(s);
            if key.None? then ReadMember(s, depth) == None
            else
              var value := JsonText.ParseValue(key.value.1, depth);
              ReadMember(s, depth) ==
              if value.None? then None else Some((Member(key.value.0, value.value.0), value.value.1))
  {
    hide JsonText.ParseKey, JsonText.ParseValue;
  }

  lemma NumberTextNext(s: ByteString, i: nat, text: ByteString)
    requires i < |s| && i < NUMBER_LIMIT && NumberByte(s[i])
    ensures text + NumberText(s[i..], NUMBER_LIMIT - i) ==
            text + [s[i]] + NumberText(s[i + 1..], NUMBER_LIMIT - (i + 1))
  {
    assert s[i..][1..] == s[i + 1..];
  }

  lemma NumberTextEnds(s: ByteString, i: nat)
    requires i <= |s| && i <= NUMBER_LIMIT
    requires i == |s| || i == NUMBER_LIMIT || !NumberByte(s[i])
    ensures NumberText(s[i..], NUMBER_LIMIT - i) == []
  {
  }

  /** Elements already read in front of a parsed rest. */
  ghost function Onto<T>(front: seq<T>, tail: Option<(seq<T>, ByteString)>): Option<(seq<T>, ByteString)> {
    match tail
    case None => None
    case Some((elements, rest)) => Some((front + elements, rest))
  }

  lemma OntoNothing<T>(tail: Option<(seq<T>, ByteString)>)
    ensures Onto([], tail) == tail
  {
    assert tail.Some? ==> [] + tail.value.0 == tail.value.0;
  }

  lemma OntoNone<T>(front: seq<T>)
    ensures Onto(front, None) == None
  {
  }

  lemma OntoCons<T>(front: seq<T>, head: T, tail: Option<(seq<T>, ByteString)>, s: ByteString)
    ensures Onto(front, Cons(head, tail)) == Onto(front + [head], tail)
    ensures Onto(front, Some(([head], s))) == Some((front + [head], s))
    ensures Onto<T>(front, None) == None
    ensures s != [] ==> Onto(front, Some(([head], s[1..]))) == Some((front + [head], s[1..]))
  {
    assert tail.Some? ==> front + ([head] + tail.value.0) == front + [head] + tail.value.0;
  }

  /**
   Parses a document held in a buffer. The position after it is reported with the tree of nodes, else that of the
   error: a byte of the buffer, and the first one behind the value and its blanks where only that is too much.
   */
  method ParseWithLengthOpts(value: ByteString, requireNul: bool, memory: Allocator) returns (item: Node?, end: nat)
    modifies memory
    ensures memory.Refused() >= old(memory.Refused())
    ensures match ParseDocument(value, requireNul)
            case None => item == null
            case Some((t, rest)) =>
              && (item != null <==> memory.Refused() == old(memory.Refused()))
              && (item != null ==>
                    && fresh(item) && fresh(item.repr) && item.next == null && item.prev == null
                    && JsonTree.Stands(item, t)
                    && end <= |value| && value[end..] == rest)
    ensures item == null ==> end < |value| || end == |value| == 0
    ensures item == null && memory.Refused() == old(memory.Refused()) ==>
              match TooMuch(value)
              case None => true
              case Some(extra) => value[end..] == extra
  {
    hide JsonText.ParseValue, Skip, JsonTree.Stands, Allocator.Refused;
    if |value| == 0 {
      return null, 0;
    }
    var buffer := new ParseBuffer(value, memory);
    assert buffer.Rest() == value;
    var granted := memory.Ask();
    if !granted {
      return null, buffer.ErrorPosition();
    }
    var root := new Node(NullKind);
    if |value| > 4 && value[..3] == [0xEF, 0xBB, 0xBF] {
      buffer.offset := buffer.offset + 3;
    }
    buffer.SkipWhitespace();
    var ok := buffer.ParseValue(root);
    if !ok {
      return null, buffer.ErrorPosition();
    }
    if requireNul {
      buffer.SkipWhitespace();
      if !buffer.At(0) {
        return null, buffer.ErrorPosition();
      }
    }
    return root, buffer.offset;
  }

  /** What stands behind the value at the front of a document and the blanks after it, if there is a value. */
  ghost function TooMuch(value: ByteString): Option<ByteString> {
    match JsonText.ParseValue(Skip(SkipBom(value)), 0)
    case None => None
    case Some((_, after)) => if after == [] then None else Some(Skip(after))
  }
}
