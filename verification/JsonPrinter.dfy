/**
 The printer: it writes into a buffer that is reallocated as it grows, and its offset may lag behind
 the text written last until it is brought up to date.
 */
module JsonPrinter {
  import opened Bytes
  import opened Wrappers
  import opened JsonNumber
  import opened JsonString
  import opened JsonText
  import opened JsonRoundTrip
  import opened JsonNode
  import opened Memory
  import JsonTree

  class PrintBuffer {
    /** null once a reallocation has failed */
    var buffer: array?<Byte>
    var length: nat
    var offset: nat
    var depth: nat
    const noalloc: bool
    const format: bool
    const memory: Allocator
    /** The size of the buffer given, if it must not grow, or of the largest one there can be. */
    ghost const limit: nat

    ghost predicate Valid()
      reads `buffer, `length
    {
      && (buffer == null ==> length == 0) && (buffer != null ==> buffer.Length == length <= limit <= INT_MAX)
      && (if noalloc then buffer != null && length == limit else limit == INT_MAX)
    }

    /** The offset has caught up with everything written: the buffer starts with `text`. */
    ghost predicate Wrote(text: ByteString)
      reads `buffer, `length, `offset, buffer
    {
      && Valid() && buffer != null && offset == |text| <= length
      && (length > 0 ==> offset < length) && buffer[..offset] == text
    }

    /** `text` is in the buffer, followed by a zero byte, but the offset may still be inside it. */
    ghost predicate Terminated(text: ByteString)
      reads `buffer, `length, `offset, buffer
    {
      && Valid() && buffer != null && offset <= |text| < length
      && buffer[..|text|] == text && buffer[|text|] == 0
    }

    /** A text of this length fits, with its terminating zero and the one byte that is always kept free. */
    ghost predicate Fits(n: nat) {
      n + 2 <= limit
    }

    /** Memory was not refused meanwhile. */
    twostate predicate Served()
      reads memory
    {
      memory.Refused() == old(memory.Refused())
    }

    /**
     A buffer that must not grow is the one given and asks for no memory; any other is the same, a new
     one or gone.
     */
    twostate predicate Moved()
      reads this, memory
    {
      && Valid() && (buffer == null || buffer == old(buffer) || fresh(buffer))
      && (noalloc ==> buffer == old(buffer) && Served())
      && memory.Refused() >= old(memory.Refused())
    }

    constructor (buffer: array<Byte>, noalloc: bool, format: bool, memory: Allocator)
      requires buffer.Length <= INT_MAX
      ensures Wrote([]) && this.buffer == buffer && depth == 0
      ensures this.noalloc == noalloc && this.format == format && this.memory == memory
      ensures limit == if noalloc then buffer.Length else INT_MAX
    {
      this.buffer, length, offset, depth := buffer, buffer.Length, 0, 0;
      this.noalloc, this.format, this.memory := noalloc, format, memory;
      limit := if noalloc then buffer.Length else INT_MAX;
    }

    /**
     Makes room for `needed` bytes after the offset and one more, or fails. Reallocation may fail at any
     time. Only the bytes up to and including the one at the offset are carried over to a new buffer.
     */
    method Ensure(needed: nat) returns (ok: bool)
      requires Valid() && (buffer != null ==> offset <= length)
      modifies `buffer, `length, memory
      ensures Moved()
      ensures ok <==>
              && old(buffer) != null && (old(length) > 0 ==> offset < old(length))
              && offset + needed + 1 <= limit && Served()
      ensures ok ==> buffer != null && offset + needed < length
      ensures ok ==> buffer[..offset] == old(buffer[..offset])
      ensures ok && old(offset < length) ==> buffer[offset] == old(buffer[offset])
    {
      hide Allocator.Refused;
      if buffer == null {
        return false;
      }
      if length > 0 && offset >= length {
        return false;
      }
      if needed > INT_MAX {
        return false;
      }
      var total := needed + offset + 1;
      if total <= length {
        return true;
      }
      if noalloc {
        return false;
      }
      var newSize;
      if total > INT_MAX / 2 {
        if total > INT_MAX {
          return false;
        }
        newSize := INT_MAX;
      } else {
        newSize := total * 2;
      }
      var granted := memory.Ask();
      if !granted {
        buffer, length := null, 0;
        return false;
      }
      var newBuffer := new Byte[newSize];
      var keep := if offset + 1 <= length then offset + 1 else length;
      forall i | 0 <= i < keep {
        newBuffer[i] := buffer[i];
      }
      assert newBuffer[..offset] == buffer[..offset];
      buffer, length := newBuffer, newSize;
      return true;
    }

    /** Writes bytes behind what is in the buffer up to `at`, inside the room reserved before. */
    method Put(at: nat, bytes: ByteString, ghost before: ByteString)
      requires Valid() && buffer != null && at + |bytes| <= length && buffer[..at] == before
      modifies buffer
      ensures buffer[..at + |bytes|] == before + bytes
    {
      forall i | 0 <= i < |bytes| {
        buffer[at + i] := bytes[i];
      }
    }

    /** Moves the offset to the terminating zero: the length of the C string found there is added. */
    method UpdateOffset(ghost text: ByteString)
      requires Terminated(text) && 0 !in text[offset..]
      modifies `offset
      ensures Wrote(text)
    {
      var n := 0;
      assert forall k | offset <= k < |text| :: buffer[k] == text[offset..][k - offset];
      while buffer[offset + n] != 0
        invariant offset + n <= |text|
        invariant buffer[|text|] == 0 && forall k | offset <= k < |text| :: buffer[k] != 0
        decreases |text| - (offset + n)
      {
        n := n + 1;
      }
      offset := offset + n;
    }

    /** Reserves `needed` bytes, writes within them and moves the offset past what was written. */
    method Emit(needed: nat, bytes: ByteString, terminate: bool, ghost text: ByteString) returns (ok: bool)
      requires Wrote(text) && |bytes| + (if terminate then 1 else 0) <= needed <= |bytes| + 1
      modifies `buffer, `length, `offset, buffer, memory
      ensures Moved()
      ensures ok ==> Served() && Wrote(text + bytes)
      ensures !ok ==> !Served() || !Fits(|text + bytes|)
    {
      hide Allocator.Refused;
      ok := Ensure(needed);
      if ok {
        Put(offset, if terminate then bytes + [0] else bytes, text);
        ghost var written := buffer[..offset + |bytes| + if terminate then 1 else 0];
        offset := offset + |bytes|;
        assert buffer[..offset] == written[..offset] == text + bytes;
      }
    }

    /** Reserves room for a C string and one byte more and writes it, leaving the offset where it is. */
    method EmitLast(bytes: ByteString, ghost text: ByteString) returns (ok: bool)
      requires Wrote(text)
      modifies `buffer, `length, buffer, memory
      ensures Moved()
      ensures ok <==> Served() && Fits(|text + bytes|)
      ensures ok ==> Terminated(text + bytes)
    {
      hide Allocator.Refused;
      ok := Ensure(|bytes| + 1);
      if ok {
        Put(offset, bytes + [0], text);
        TerminatedBy(text, bytes);
      }
    }

    method PrintNumber(d: real, ghost text: ByteString) returns (ok: bool)
      requires Wrote(text) && IsInteger(d)
      modifies `buffer, `length, `offset, buffer, memory
      ensures Moved()
      ensures ok <==> Served() && Fits(|text + Decimal(ToInt(d))|)
      ensures ok ==> Terminated(text + Decimal(ToInt(d))) && offset >= |text|
    {
      hide Decimal, ToInt, Allocator.Refused;
      DecimalText(ToInt(d));
      var number := Decimal(ToInt(d));
      if |number| > 25 {
        assert false;
        return false;
      }
      ok := EmitLast(number, text);
      if ok {
        offset := offset + |number|;
      }
    }

    method PrintString(input: ByteString, ghost text: ByteString) returns (ok: bool)
      requires Wrote(text)
      modifies `buffer, `length, buffer, memory
      ensures Moved()
      ensures ok <==> Served() && Fits(|text + Quoted(input)|)
      ensures ok ==> Terminated(text + Quoted(input))
    {
      hide EscapeText, Allocator.Refused;
      var escapes := CountEscapes(input);
      var outputLength := |input| + escapes;
      ok := Ensure(outputLength + 3);
      if !ok {
        return;
      }
      if escapes == 0 {
        Put(offset, [QUOTE] + input + [QUOTE, 0], text);
        assert [QUOTE] + input + [QUOTE, 0] == Quoted(input) + [0];
      } else {
        PutEscaped(input, text);
      }
      TerminatedBy(text, Quoted(input));
    }

    method PutEscaped(input: ByteString, ghost text: ByteString)
      requires Wrote(text) && offset + |EscapeText(input)| + 3 <= length
      modifies buffer
      ensures buffer[..offset + |Quoted(input)| + 1] == text + (Quoted(input) + [0])
    {
      hide EscapeText;
      Put(offset, [QUOTE], text);
      var n := CopyEscaped(offset + 1, input, text + [QUOTE]);
      ghost var before := text + [QUOTE] + EscapeText(input);
      Put(n, [QUOTE, 0], before);
      assert before + [QUOTE, 0] == text + (Quoted(input) + [0]);
    }

    lemma TerminatedBy(before: ByteString, bytes: ByteString)
      requires Valid() && buffer != null && offset <= |before + bytes| < length
      requires buffer[..|before + bytes| + 1] == before + (bytes + [0])
      ensures Terminated(before + bytes)
    {
      var n := |before + bytes|;
      var all := buffer[..n + 1];
      assert buffer[..n] == all[..n] && buffer[n] == all[n];
    }

    /** The number of bytes escaping adds; none are added exactly when the text is copied unchanged. */
    method CountEscapes(input: ByteString) returns (escapes: nat)
      ensures |EscapeText(input)| == |input| + escapes
      ensures escapes == 0 ==> EscapeText(input) == input
    {
      escapes := 0;
      ghost var done: ByteString := [];
      CountingStarts(input);
      hide EscapeText, Source, TokenOf;
      for i := 0 to |input|
        invariant done + EscapeText(input[i..]) == EscapeText(input)
        invariant |done| == i + escapes
        invariant escapes == 0 ==> done == input[..i]
      {
        NextEscape(input, i, done);
        var b := input[i];
        if EscapeLetter(b).Some? {
          escapes := escapes + 1;
        } else if b < 32 {
          escapes := escapes + 5;
        }
        done := done + Source(TokenOf(b));
      }
    }

    method CopyEscaped(at: nat, input: ByteString, ghost before: ByteString) returns (end: nat)
      requires Valid() && buffer != null && |before| == at && at + |EscapeText(input)| <= length
      requires buffer[..at] == before
      modifies buffer
      ensures end == at + |EscapeText(input)|
      ensures buffer[..end] == before + EscapeText(input)
    {
      hide TokenOf, Source;
      end := at;
      ghost var done: ByteString := [];
      for i := 0 to |input|
        invariant done + EscapeText(input[i..]) == EscapeText(input) && end == at + |done|
        invariant buffer[..end] == before + done
      {
        EscapeStep(input, i);
        var bytes := Source(TokenOf(input[i]));
        Put(end, bytes, before + done);
        end := end + |bytes|;
        done := done + bytes;
      }
      assert EscapeText(input[|input|..]) == [];
    }

    /**
     On success the buffer holds what was there before, then exactly the rendering, then a zero byte. The
     offset has not gone back and may still point into the rendering. It fails exactly when memory is
     refused or the text does not fit.
     */
    method PrintValue(item: Node, ghost t: Json, ghost text: ByteString) returns (ok: bool)
      requires Wrote(text) && JsonTree.Stands(item, t) && Printable(t)
      modifies `buffer, `length, `offset, `depth, buffer, memory
      ensures Moved()
      ensures ok <==> Served() && Fits(|text + Render(t, format, old(depth))|)
      ensures ok ==> Terminated(text + Render(t, format, old(depth))) && offset >= |text| && depth == old(depth)
      decreases t, 2
    {
      hide JsonTree.Stands, Allocator.Refused;
      KindTells(item, t);
      match item.kind
      case NullKind => ok := EmitLast(NULL, text);
      case FalseKind => ok := EmitLast(FALSE, text);
      case TrueKind => ok := EmitLast(TRUE, text);
      case NumberKind => ok := PrintNumber(item.number, text);
      case StringKind => ok := PrintString(item.text, text);
      case ArrayKind => ok := PrintArray(item, t, text);
      case ObjectKind => ok := PrintObject(item, t, text);
    }

    method PrintArray(item: Node, ghost t: Json, ghost text: ByteString) returns (ok: bool)
      requires Wrote(text) && JsonTree.Stands(item, t) && t.Array? && Printable(t)
      modifies `buffer, `length, `offset, `depth, buffer, memory
      ensures Moved()
      ensures ok <==> Served() && Fits(|text + Render(t, format, old(depth))|)
      ensures ok ==> Terminated(text + Render(t, format, old(depth))) && offset >= |text| && depth == old(depth)
      decreases t, 1
    {
      hide Render, RenderItems, Printable, DeepestItem, Separator, JsonTree.Stands, Allocator.Refused;
      ArrayText(t, format, depth, text);
      ok := Emit(1, [OPEN_ARRAY], false, text);
      if !ok {
        return;
      }
      depth := depth + 1;
      ghost var cur := text + [OPEN_ARRAY];
      ok := PrintElements(item, t, cur);
      if !ok {
        return;
      }
      cur := cur + RenderItems(t, format, depth, 0);
      ok := EmitLast([CLOSE_ARRAY], cur);
      depth := depth - 1;
    }

    /** The loop over the children of an array. */
    method PrintElements(item: Node, ghost t: Json, ghost text: ByteString) returns (ok: bool)
      requires Wrote(text) && JsonTree.Stands(item, t) && t.Array? && Printable(t)
      modifies `buffer, `length, `offset, `depth, buffer, memory
      ensures Moved()
      ensures ok ==> Served() && Wrote(text + RenderItems(t, format, old(depth), 0)) && depth == old(depth)
      ensures !ok ==> !Served() || !Fits(|text + RenderItems(t, format, old(depth), 0)|)
      decreases t, 0
    {
      hide Render, RenderItems, Printable, DeepestItem, Separator, JsonTree.Stands, Allocator.Refused;
      ghost var cur, i := text, 0;
      FirstElement(item, t);
      var current := item.child;
      ok := true;
      while current != null
        invariant 0 <= i <= |t.items| && ok && Wrote(cur) && depth == old(depth)
        invariant JsonTree.Stands(item, t) && current == if i < |t.items| then item.kids[i] else null
        invariant cur + RenderItems(t, format, depth, i) == text + RenderItems(t, format, depth, 0)
        invariant Moved() && Served()
        decreases |t.items| - i
      {
        DeepestItemStep(t, i);
        ElementAt(item, t, i);
        ItemsRendering(t, format, depth, i, cur);
        ok := PrintElement(current, t.items[i], current.next != null, cur);
        if !ok {
          return;
        }
        cur := cur + Render(t.items[i], format, depth) + Separator(format, i + 1 < |t.items|);
        current := current.next;
        i := i + 1;
      }
      RenderNoItems(t, format, depth);
    }

    /** One element and the separator behind it, if another one follows. */
    method PrintElement(item: Node, ghost t: Json, more: bool, ghost text: ByteString) returns (ok: bool)
      requires Wrote(text) && JsonTree.Stands(item, t) && Printable(t)
      modifies `buffer, `length, `offset, `depth, buffer, memory
      ensures Moved()
      ensures ok ==>
                Served() && Wrote(text + Render(t, format, old(depth)) + Separator(format, more)) && depth == old(depth)
      ensures !ok ==> !Served() || !Fits(|text + Render(t, format, old(depth)) + Separator(format, more)|)
      decreases t, 3
    {
      hide Render, JsonTree.Stands, Allocator.Refused;
      ghost var cur := text + Render(t, format, depth);
      RenderNulFree(t, format, depth);
      ok := PrintValue(item, t, text);
      if !ok {
        return;
      }
      TailNulFree(text, Render(t, format, depth), offset);
      UpdateOffset(cur);
      if more {
        ok := Emit(if format then 3 else 2, Separator(format, true), true, cur);
      } else {
        assert cur + Separator(format, more) == cur;
      }
    }

    method PrintObject(item: Node, ghost t: Json, ghost text: ByteString) returns (ok: bool)
      requires Wrote(text) && JsonTree.Stands(item, t) && t.Object? && Printable(t)
      modifies `buffer, `length, `offset, `depth, buffer, memory
      ensures Moved()
      ensures ok <==> Served() && Fits(|text + Render(t, format, old(depth))|)
      ensures ok ==> Terminated(text + Render(t, format, old(depth))) && offset >= |text| && depth == old(depth)
      decreases t, 1
    {
      hide Render, RenderMembers, Printable, DeepestMember, KeyText, MemberEnd, MemberText, JsonTree.Stands,
        Allocator.Refused;
      ObjectWholeText(t, format, depth, text);
      ok := Emit(if format then 3 else 2, ObjectOpen(format), false, text);
      if !ok {
        return;
      }
      depth := depth + 1;
      ghost var cur := text + ObjectOpen(format);
      ok := PrintMembers(item, t, cur);
      if !ok {
        return;
      }
      cur := cur + RenderMembers(t, format, depth, 0);
      ok := EmitLast(ObjectClose(format, depth - 1), cur);
      depth := depth - 1;
    }

    /** The loop over the children of an object. */
    method PrintMembers(item: Node, ghost t: Json, ghost text: ByteString) returns (ok: bool)
      requires Wrote(text) && JsonTree.Stands(item, t) && t.Object? && Printable(t)
      modifies `buffer, `length, `offset, `depth, buffer, memory
      ensures Moved()
      ensures ok ==> Served() && Wrote(text + RenderMembers(t, format, old(depth), 0)) && depth == old(depth)
      ensures !ok ==> !Served() || !Fits(|text + RenderMembers(t, format, old(depth), 0)|)
      decreases t, 0
    {
      hide Render, RenderMembers, Printable, DeepestMember, KeyText, MemberEnd, MemberText, JsonTree.Stands,
        Allocator.Refused;
      ghost var cur, i := text, 0;
      FirstMember(item, t);
      var current := item.child;
      ok := true;
      while current != null
        invariant 0 <= i <= |t.members| && ok && Wrote(cur) && depth == old(depth)
        invariant JsonTree.Stands(item, t) && current == if i < |t.members| then item.kids[i] else null
        invariant cur + RenderMembers(t, format, depth, i) == text + RenderMembers(t, format, depth, 0)
        invariant Moved() && Served()
        decreases |t.members| - i
      {
        DeepestMemberStep(t, i);
        MemberAt(item, t, i);
        MembersRendering(t, format, depth, i, cur);
        ok := PrintMember(current, t.members[i], current.next != null, cur);
        if !ok {
          return;
        }
        cur := cur + MemberText(t.members[i], i + 1 < |t.members|, format, depth);
        current := current.next;
        i := i + 1;
      }
      RenderNoMembers(t, format, depth);
    }

    /** Indentation, key, colon, value and the end of the line, with a comma if another member follows. */
    method PrintMember(item: Node, ghost member: Member, more: bool, ghost text: ByteString) returns (ok: bool)
      requires Wrote(text) && JsonTree.Stands(item, member.value) && item.key == member.key && Printable(member.value)
      modifies `buffer, `length, `offset, `depth, buffer, memory
      ensures Moved()
      ensures ok ==> Served() && Wrote(text + MemberText(member, more, format, old(depth))) && depth == old(depth)
      ensures !ok ==> !Served() || !Fits(|text + MemberText(member, more, format, old(depth))|)
      decreases member, 3
    {
      hide Render, Quoted, MemberText, JsonTree.Stands, Allocator.Refused;
      MemberTextGrouped(member, more, format, depth, text);
      ghost var cur := text;
      if format {
        ok := Emit(depth, Tabs(depth), false, cur);
        if !ok {
          return;
        }
        cur := cur + Tabs(depth);
      }
      ok := PrintKey(item.key, cur);
      if !ok {
        return;
      }
      cur := cur + Quoted(member.key);
      ok := Emit(if format then 2 else 1, if format then [COLON, TAB] else [COLON], false, cur);
      if !ok {
        return;
      }
      cur := cur + if format then [COLON, TAB] else [COLON];
      ok := PrintElement(item, member.value, false, cur);
      if !ok {
        return;
      }
      cur := cur + Render(member.value, format, depth) + Separator(format, false);
      ok := Emit((if format then 1 else 0) + (if more then 1 else 0) + 1, MemberEnd(format, more), true, cur);
    }

    method PrintKey(key: ByteString, ghost text: ByteString) returns (ok: bool)
      requires Wrote(text)
      modifies `buffer, `length, `offset, buffer, memory
      ensures Moved()
      ensures ok ==> Served() && Wrote(text + Quoted(key))
      ensures !ok ==> !Served() || !Fits(|text + Quoted(key)|)
    {
      hide EscapeText, Allocator.Refused;
      ok := PrintString(key, text);
      if ok {
        EscapeTextNulFree(key);
        TailNulFree(text, Quoted(key), offset);
        UpdateOffset(text + Quoted(key));
      }
    }
  }

  /** Prints a tree of nodes into a fresh text with its terminating zero. */
  method Print(item: Node, format: bool, memory: Allocator, ghost t: Json) returns (printed: Option<ByteString>)
    requires JsonTree.Stands(item, t) && Printable(t)
    modifies memory
    ensures printed == if memory.Refused() == old(memory.Refused()) && |Render(t, format, 0)| + 2 <= INT_MAX
                       then Some(Render(t, format, 0) + [0]) else None
  {
    hide Render, Printable, JsonTree.Stands, Allocator.Refused;
    var granted := memory.Ask();
    if !granted {
      return None;
    }
    var buffer := new Byte[256];
    var p := new PrintBuffer(buffer, false, format, memory);
    ghost var text := [] + Render(t, format, 0);
    assert text == Render(t, format, 0);
    var ok := p.PrintValue(item, t, []);
    if !ok {
      return None;
    }
    RenderNulFree(t, format, 0);
    TailNulFree([], text, p.offset);
    p.UpdateOffset(text);
    granted := memory.Ask();
    if !granted {
      return None;
    }
    printed := Some(p.buffer[..p.offset] + [0]);
  }

  /** Prints into a buffer that starts out with the size given; the buffer itself is the result. */
  method PrintBuffered(item: Node, prebuffer: int, format: bool, memory: Allocator, ghost t: Json)
    returns (printed: array?<Byte>)
    requires JsonTree.Stands(item, t) && Printable(t) && prebuffer <= INT_MAX
    modifies memory
    ensures printed != null <==>
            prebuffer >= 0 && memory.Refused() == old(memory.Refused()) && |Render(t, format, 0)| + 2 <= INT_MAX
    ensures printed != null ==>
              fresh(printed) && printed.Length > |Render(t, format, 0)| &&
              printed[..|Render(t, format, 0)| + 1] == Render(t, format, 0) + [0]
  {
    hide Render, Printable, JsonTree.Stands, Allocator.Refused;
    if prebuffer < 0 {
      return null;
    }
    var granted := memory.Ask();
    if !granted {
      return null;
    }
    var buffer := new Byte[prebuffer];
    var p := new PrintBuffer(buffer, false, format, memory);
    ghost var text := [] + Render(t, format, 0);
    assert text == Render(t, format, 0);
    var ok := p.PrintValue(item, t, []);
    return if ok then p.buffer else null;
  }

  /** Prints into the caller's buffer, which needs one byte more than the text and its terminating zero. */
  method PrintPreallocated(item: Node, buffer: array?<Byte>, format: bool, memory: Allocator, ghost t: Json)
    returns (ok: bool)
    requires JsonTree.Stands(item, t) && Printable(t) && (buffer != null ==> buffer.Length <= INT_MAX)
    modifies buffer, memory
    ensures ok <==> buffer != null && |Render(t, format, 0)| + 2 <= buffer.Length
    ensures ok ==> buffer[..|Render(t, format, 0)| + 1] == Render(t, format, 0) + [0]
  {
    hide Render, Printable, JsonTree.Stands, Allocator.Refused;
    if buffer == null {
      return false;
    }
    var p := new PrintBuffer(buffer, true, format, memory);
    ghost var text := [] + Render(t, format, 0);
    assert text == Render(t, format, 0);
    ok := p.PrintValue(item, t, []);
  }

  function ObjectOpen(format: bool): ByteString {
    if format then [OPEN_OBJECT, NEWLINE] else [OPEN_OBJECT]
  }

  function ObjectClose(format: bool, depth: nat): ByteString {
    (if format then Tabs(depth) else []) + [CLOSE_OBJECT]
  }

  function MemberText(member: Member, more: bool, format: bool, depth: nat): ByteString {
    KeyText(member.key, format, depth) + Render(member.value, format, depth) + MemberEnd(format, more)
  }

  // ----- What the nodes say -----

  lemma KindTells(n: Node, t: Json)
    requires JsonTree.Stands(n, t)
    ensures match n.kind
            case NullKind => t == Null
            case FalseKind => t == False
            case TrueKind => t == True
            case NumberKind => t == Number(n.number)
            case StringKind => t == String(n.text)
            case ArrayKind => t.Array?
            case ObjectKind => t.Object?
  {
  }

  lemma FirstElement(n: Node, t: Json)
    requires JsonTree.Stands(n, t) && t.Array?
    ensures |n.kids| == |t.items| && n.child == if |t.items| > 0 then n.kids[0] else null
  {
    KindTells(n, t);
    JsonTree.FirstItem(n);
  }

  lemma ElementAt(n: Node, t: Json, i: nat)
    requires JsonTree.Stands(n, t) && t.Array? && i < |t.items|
    ensures |n.kids| == |t.items| && JsonTree.Stands(n.kids[i], t.items[i])
    ensures n.kids[i].next == if i + 1 < |t.items| then n.kids[i + 1] else null
  {
    FirstElement(n, t);
    KindTells(n, t);
    JsonTree.ItemAt(n, i);
    JsonTree.NextChild(n, i);
  }

  lemma FirstMember(n: Node, t: Json)
    requires JsonTree.Stands(n, t) && t.Object?
    ensures |n.kids| == |t.members| && n.child == if |t.members| > 0 then n.kids[0] else null
  {
    KindTells(n, t);
    JsonTree.FirstMember(n);
  }

  lemma MemberAt(n: Node, t: Json, i: nat)
    requires JsonTree.Stands(n, t) && t.Object? && i < |t.members|
    ensures |n.kids| == |t.members| && JsonTree.Stands(n.kids[i], t.members[i].value) &&
              n.kids[i].key == t.members[i].key
    ensures n.kids[i].next == if i + 1 < |t.members| then n.kids[i + 1] else null
  {
    FirstMember(n, t);
    KindTells(n, t);
    JsonTree.MemberAt(n, i);
    JsonTree.NextChild(n, i);
  }

  // ----- Escaping, byte by byte -----

  lemma CountingStarts(input: ByteString)
    ensures [] + EscapeText(input[0..]) == EscapeText(input)
    ensures forall done: ByteString :: done + EscapeText(input[|input|..]) == done
    ensures input[..|input|] == input
  {
    assert input[0..] == input && input[|input|..] == [];
  }

  lemma NextEscape(input: ByteString, i: nat, done: ByteString)
    requires i < |input|
    ensures var piece := Source(TokenOf(input[i]));
            && done + EscapeText(input[i..]) == done + piece + EscapeText(input[i + 1..])
            && |piece| == 1 + (if EscapeLetter(input[i]).Some? then 1 else if input[i] < 32 then 5 else 0)
            && (|piece| == 1 ==> done + piece == done + [input[i]])
    ensures input[..i] + [input[i]] == input[..i + 1]
  {
    hide *;
    EscapeStep(input, i);
    EscapeLength(input[i]);
    var piece, rest := Source(TokenOf(input[i])), EscapeText(input[i + 1..]);
    assert done + (piece + rest) == done + piece + rest;
  }

  // ----- The rendering, piece by piece -----

  lemma ItemsRendering(t: Json, format: bool, depth: nat, i: nat, cur: ByteString)
    requires t.Array? && i < |t.items|
    ensures cur + RenderItems(t, format, depth, i) ==
            cur + Render(t.items[i], format, depth) + Separator(format, i + 1 < |t.items|) +
            RenderItems(t, format, depth, i + 1)
  {
    hide Render, Separator;
  }

  lemma ArrayText(t: Json, format: bool, depth: nat, text: ByteString)
    requires t.Array?
    ensures text + [OPEN_ARRAY] + RenderItems(t, format, depth + 1, 0) + [CLOSE_ARRAY] ==
              text + Render(t, format, depth)
  {
    hide RenderItems;
  }

  lemma MembersRendering(t: Json, format: bool, depth: nat, i: nat, cur: ByteString)
    requires t.Object? && i < |t.members|
    ensures cur + RenderMembers(t, format, depth, i) ==
            cur + MemberText(t.members[i], i + 1 < |t.members|, format, depth) + RenderMembers(t, format, depth, i + 1)
  {
    hide Render, KeyText, MemberEnd;
  }

  lemma ObjectWholeText(t: Json, format: bool, depth: nat, text: ByteString)
    requires t.Object?
    ensures text + ObjectOpen(format) + RenderMembers(t, format, depth + 1, 0) + ObjectClose(format, depth) ==
            text + Render(t, format, depth)
  {
    ObjectText(t, format, depth);
    var open, members := [OPEN_OBJECT] + MemberLead(format), RenderMembers(t, format, depth + 1, 0);
    var indent := if format then Tabs(depth) else [];
    assert ObjectOpen(format) == open && ObjectClose(format, depth) == indent + [CLOSE_OBJECT];
    hide *;
    GroupBehind(text, open, members, indent, [CLOSE_OBJECT]);
  }

  lemma GroupBehind(a: ByteString, b: ByteString, c: ByteString, d: ByteString, e: ByteString)
    ensures a + b + c + (d + e) == a + (b + c + d + e)
  {
  }

  lemma MemberTextGrouped(member: Member, more: bool, format: bool, depth: nat, text: ByteString)
    ensures var key := (if format then text + Tabs(depth) else text) + Quoted(member.key) +
                       (if format then [COLON, TAB] else [COLON]);
            key + Render(member.value, format, depth) + Separator(format, false) + MemberEnd(format, more) ==
            text + MemberText(member, more, format, depth)
  {
    hide Render, Quoted, Tabs, MemberEnd;
  }

  lemma TailNulFree(text: ByteString, bytes: ByteString, offset: nat)
    requires 0 !in bytes && |text| <= offset <= |text + bytes|
    ensures 0 !in (text + bytes)[offset..]
  {
  }

  /** A rendering holds no zero byte. */
  lemma {:induction false} RenderNulFree(t: Json, format: bool, depth: nat)
    requires Printable(t)
    ensures 0 !in Render(t, format, depth)
    decreases t, 1, 0
  {
    hide RenderItems, RenderMembers, EscapeText, Decimal, Nesting;
    match t
    case Null =>
    case False =>
    case True =>
    case Number(d) => DecimalText(ToInt(d));
    case String(text) => EscapeTextNulFree(text);
    case Array(items) => ItemsNulFree(t, format, depth + 1, 0);
    case Object(members) => MembersNulFree(t, format, depth + 1, 0);
  }

  lemma {:induction false} ItemsNulFree(t: Json, format: bool, depth: nat, i: nat)
    requires t.Array? && Printable(t) && i <= |t.items|
    ensures 0 !in RenderItems(t, format, depth, i)
    decreases t, 0, |t.items| - i
  {
    if i < |t.items| {
      hide Render;
      DeepestItemStep(t, i);
      RenderNulFree(t.items[i], format, depth);
      ItemsNulFree(t, format, depth, i + 1);
    }
  }

  lemma {:induction false} MembersNulFree(t: Json, format: bool, depth: nat, i: nat)
    requires t.Object? && Printable(t) && i <= |t.members|
    ensures 0 !in RenderMembers(t, format, depth, i)
    decreases t, 0, |t.members| - i
  {
    if i < |t.members| {
      hide Render, KeyText, MemberEnd;
      DeepestMemberStep(t, i);
      RenderNulFree(t.members[i].value, format, depth);
      KeyNulFree(t.members[i].key, format, depth, i + 1 < |t.members|);
      MembersNulFree(t, format, depth, i + 1);
    }
  }

  lemma {:induction false} KeyNulFree(key: ByteString, format: bool, depth: nat, more: bool)
    requires 0 !in key
    ensures 0 !in KeyText(key, format, depth) && 0 !in MemberEnd(format, more)
  {
    hide EscapeText;
    EscapeTextNulFree(key);
  }

  lemma EscapeLength(b: Byte)
    ensures |Source(TokenOf(b))| == if EscapeLetter(b).Some? then 2 else if b < 32 then 6 else 1
    ensures EscapeLetter(b).None? && b >= 32 ==> Source(TokenOf(b)) == [b]
  {
  }

  lemma EscapeStep(input: ByteString, i: nat)
    requires i < |input|
    ensures EscapeText(input[i..]) == Source(TokenOf(input[i])) + EscapeText(input[i + 1..])
  {
    assert input[i..][1..] == input[i + 1..];
  }
}
