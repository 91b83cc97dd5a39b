/**
 String literals: the escaping of the printer and the two-pass unescaping of the parser.
 A literal is a list of tokens in the sense of section 7 of RFC 8259.
 */
module JsonString {
  import opened Bytes
  import opened Wrappers

  const QUOTE: Byte := 0x22
  const BACKSLASH: Byte := 0x5c
  const LETTER_U: Byte := 0x75

  // ----- Code points and UTF-8 (section 3 of RFC 3629) -----

  type CodePoint = c: nat | c <= 0x10FFFF

  function Utf8(c: CodePoint): (bytes: ByteString)
    ensures 1 <= |bytes| <= 4
    ensures c < 0x10000 ==> |bytes| <= 3
  {
    if c < 0x80 then [c as Byte]
    else if c < 0x800 then [(0xC0 + c / 64) as Byte, (0x80 + c % 64) as Byte]
    else if c < 0x10000 then
      [(0xE0 + c / 4096) as Byte, (0x80 + c / 64 % 64) as Byte, (0x80 + c % 64) as Byte]
    else
      [(0xF0 + c / 262144) as Byte, (0x80 + c / 4096 % 64) as Byte, (0x80 + c / 64 % 64) as Byte,
       (0x80 + c % 64) as Byte]
  }

  /** The value of a hexadecimal digit; None for any other byte. */
  function HexValue(b: Byte): Option<nat> {
    if 0x30 <= b <= 0x39 then Some((b - 0x30) as nat)
    else if 0x41 <= b <= 0x46 then Some((b - 0x41 + 10) as nat)
    else if 0x61 <= b <= 0x66 then Some((b - 0x61 + 10) as nat)
    else None
  }

  predicate IsHex4(digits: ByteString) {
    |digits| == 4 && forall i | 0 <= i < 4 :: HexValue(digits[i]).Some?
  }

  /** Four digits read as one number; an invalid digit anywhere makes the result 0. */
  function Hex4(digits: ByteString): (h: nat)
    requires |digits| == 4
    ensures h <= 0xFFFF
  {
    if IsHex4(digits) then
      4096 * HexValue(digits[0]).value + 256 * HexValue(digits[1]).value +
      16 * HexValue(digits[2]).value + HexValue(digits[3]).value
    else 0
  }

  predicate HighSurrogate(code: nat) {
    0xD800 <= code <= 0xDBFF
  }

  predicate LowSurrogate(code: nat) {
    0xDC00 <= code <= 0xDFFF
  }

  function Combine(high: nat, low: nat): CodePoint
    requires HighSurrogate(high) && LowSurrogate(low)
  {
    0x10000 + (high - 0xD800) * 0x400 + (low - 0xDC00)
  }

  // ----- The second pass as a function -----

  /** The code point of the \u sequence at p and its length; the input ends before `end`. */
  function Utf16Literal(s: ByteString, p: nat, end: nat): (r: Option<(CodePoint, nat)>)
    requires p <= end <= |s|
    ensures r.Some? ==> p + r.value.1 <= end && (r.value.1 == 6 || r.value.1 == 12)
    ensures r.Some? ==> |Utf8(r.value.0)| <= r.value.1 / 2
  {
    if end - p < 6 then None
    else
      var first := Hex4(s[p + 2..p + 6]);
      if LowSurrogate(first) then None
      else if HighSurrogate(first) then
        if end - (p + 6) < 6 then None
        else if s[p + 6] != BACKSLASH || s[p + 7] != LETTER_U then None
        else
          var second := Hex4(s[p + 8..p + 12]);
          if !LowSurrogate(second) then None
          else Some((Combine(first, second), 12))
      else Some((first, 6))
  }

  /** The byte denoted by a two-character escape. */
  function ShortEscape(letter: Byte): Option<Byte> {
    match letter
    case 0x62 => Some(0x08)
    case 0x66 => Some(0x0c)
    case 0x6e => Some(0x0a)
    case 0x72 => Some(0x0d)
    case 0x74 => Some(0x09)
    case 0x22 => Some(0x22)
    case 0x5c => Some(0x5c)
    case 0x2f => Some(0x2f)
    case _ => None
  }

  /** What the escape at p denotes and its length; None when it denotes nothing. */
  function Escape(s: ByteString, p: nat, end: nat): (r: Option<(ByteString, nat)>)
    requires p < end < |s|
    ensures r.Some? ==> 0 < r.value.1 && p + r.value.1 <= end + 1
  {
    if s[p + 1] == LETTER_U then
      match Utf16Literal(s, p, end)
      case None => None
      case Some((code, length)) => Some((Utf8(code), length))
    else
      match ShortEscape(s[p + 1])
      case None => None
      case Some(b) => Some(([b], 2))
  }

  /** Decodes s[p..end]; s[end] is the closing quote, which a misaligned backslash may still read. */
  function Decode(s: ByteString, p: nat, end: nat): Option<ByteString>
    requires p <= end + 1 && end < |s|
    decreases end + 1 - p
  {
    if p >= end then Some([])
    else if s[p] != BACKSLASH then Prepend([s[p]], Decode(s, p + 1, end))
    else
      match Escape(s, p, end)
      case None => None
      case Some((bytes, length)) => Prepend(bytes, Decode(s, p + length, end))
  }

  function Prepend(bytes: ByteString, rest: Option<ByteString>): Option<ByteString> {
    match rest
    case None => None
    case Some(r) => Some(bytes + r)
  }

  /** Where the first pass finds the closing quote of the literal whose body starts at p. */
  function LiteralEnd(s: ByteString, p: nat): (end: Option<nat>)
    requires p <= |s|
    ensures end.Some? ==> p <= end.value < |s| && s[end.value] == QUOTE
    decreases |s| - p
  {
    if p == |s| then None
    else if s[p] == QUOTE then Some(p)
    else if s[p] == BACKSLASH then if p + 1 == |s| then None else LiteralEnd(s, p + 2)
    else LiteralEnd(s, p + 1)
  }

  // ----- First pass: escapes are disjoint pairs -----

  /** Whether byte i is the second byte of an escape, as the first pass sees it. */
  predicate Escaped(s: ByteString, i: nat)
    requires i <= |s|
  {
    i > 0 && s[i - 1] == BACKSLASH && !Escaped(s, i - 1)
  }

  /** The number of escapes the first pass sees starting before p. */
  function Skipped(s: ByteString, p: nat): (n: nat)
    requires p <= |s|
    ensures n <= p
  {
    if p == 0 then 0
    else Skipped(s, p - 1) + if s[p - 1] == BACKSLASH && !Escaped(s, p - 1) then 1 else 0
  }

  /** Escapes never overlap, so a stretch of n bytes starts at most half as many, rounded up. */
  lemma {:induction false} SkippedStretch(s: ByteString, p: nat, n: nat)
    requires p + n <= |s|
    ensures Skipped(s, p + n) <= Skipped(s, p) + (n + 1) / 2
    ensures n % 2 == 1 && p < |s| && s[p] != BACKSLASH ==> Skipped(s, p + n) <= Skipped(s, p) + n / 2
  {
    if n >= 2 {
      SkippedStretch(s, p, n - 2);
    }
  }

  /** Finds the closing quote and counts the escapes passed on the way, which sizes the output. */
  method FirstPass(s: ByteString) returns (end: Option<nat>, skipped: nat)
    ensures end == LiteralEnd(s, 0)
    ensures end.Some? ==> skipped == Skipped(s, end.value)
  {
    var p := 0;
    skipped := 0;
    while p < |s| && s[p] != QUOTE
      invariant p <= |s| && !Escaped(s, p)
      invariant LiteralEnd(s, p) == LiteralEnd(s, 0)
      invariant skipped == Skipped(s, p)
    {
      if s[p] == BACKSLASH {
        if p + 1 >= |s| {
          return None, skipped;
        }
        skipped := skipped + 1;
        p := p + 1;
      }
      p := p + 1;
    }
    if p == |s| {
      return None, skipped;
    }
    return Some(p), skipped;
  }

  // ----- Second pass: decoding into the buffer sized by the first -----

  method ParseHex4(input: ByteString) returns (h: nat)
    requires |input| == 4
    ensures h == Hex4(input)
  {
    h := 0;
    for i := 0 to 4
      invariant forall k | 0 <= k < i :: HexValue(input[k]).Some?
      invariant i == 0 ==> h == 0
      invariant i == 1 ==> h == 16 * HexValue(input[0]).value
      invariant i == 2 ==> h == 256 * HexValue(input[0]).value + 16 * HexValue(input[1]).value
      invariant i == 3 ==>
                  h == 4096 * HexValue(input[0]).value + 256 * HexValue(input[1]).value +
                  16 * HexValue(input[2]).value
      invariant i == 4 ==> h == 4096 * HexValue(input[0]).value + 256 * HexValue(input[1]).value +
                                16 * HexValue(input[2]).value + HexValue(input[3]).value
    {
      var digit := HexValue(input[i]);
      if digit.None? {
        return 0;
      }
      h := h + digit.value;
      if i < 3 {
        h := 16 * h;
      }
    }
  }

  /** The length of the encoding and the mark of its first byte. */
  method Utf8Shape(code: CodePoint) returns (length: nat, mark: nat)
    ensures length == |Utf8(code)| && mark + Shifted(code, length - 1) < 256
    ensures Utf8(code)[0] as int == mark + Shifted(code, length - 1)
    ensures forall k | 0 < k < length :: Utf8(code)[k] as int == 0x80 + Shifted(code, length - 1 - k) % 64
  {
    ShiftedBytes(code);
    if code < 0x80 {
      length, mark := 1, 0;
    } else if code < 0x800 {
      length, mark := 2, 0xC0;
    } else if code < 0x10000 {
      length, mark := 3, 0xE0;
    } else {
      length, mark := 4, 0xF0;
    }
  }

  /** Writes the UTF-8 bytes of a code point from the last one back to the first. */
  method WriteUtf8(output: array<Byte>, at: nat, code: CodePoint) returns (length: nat)
    requires at + |Utf8(code)| <= output.Length
    modifies output
    ensures length == |Utf8(code)|
    ensures output[..at + length] == old(output[..at]) + Utf8(code)
  {
    hide Utf8, Shifted;
    var mark;
    length, mark := Utf8Shape(code);
    var rest: nat := code;
    var position := length - 1;
    ghost var before := output[..at];
    ShiftedStep(code, 0);
    while position > 0
      invariant 0 <= position < length
      invariant output[..at] == before
      invariant rest == Shifted(code, length - 1 - position)
      invariant forall k | position < k < length :: output[at + k] == Utf8(code)[k]
    {
      output[at + position] := (0x80 + rest % 64) as Byte;
      ShiftedStep(code, length - 1 - position);
      rest := rest / 64;
      position := position - 1;
    }
    output[at] := (mark + rest) as Byte;
    assert output[at..at + length] == Utf8(code);
    assert output[..at + length] == output[..at] + output[at..at + length];
  }

  lemma ShiftedStep(code: nat, n: nat)
    ensures Shifted(code, 0) == code && Shifted(code, n + 1) == Shifted(code, n) / 64
  {
  }

  /** Every trailing byte holds the next six bits; the mark and what is left make the first. */
  lemma ShiftedBytes(code: CodePoint)
    ensures var n := |Utf8(code)|;
            var mark := if code < 0x80 then 0 else if code < 0x800 then 0xC0 else if code < 0x10000 then 0xE0 else 0xF0;
            && n == (if code < 0x80 then 1 else if code < 0x800 then 2 else if code < 0x10000 then 3 else 4)
            && mark + Shifted(code, n - 1) < 256
            && Utf8(code)[0] as int == mark + Shifted(code, n - 1)
            && forall k | 0 < k < n :: Utf8(code)[k] as int == 0x80 + Shifted(code, n - 1 - k) % 64
  {
    assert Shifted(code, 1) == code / 64;
    assert Shifted(code, 2) == code / 4096;
    assert Shifted(code, 3) == code / 262144;
  }

  function Shifted(code: nat, n: nat): nat {
    if n == 0 then code else Shifted(code, n - 1) / 64
  }

  /** The buffer sized by the first pass is never overrun, even where the passes disagree on boundaries. */
  method SecondPass(s: ByteString, end: nat, skipped: nat) returns (r: Option<ByteString>)
    requires end < |s| && s[end] == QUOTE && skipped == Skipped(s, end)
    ensures r == Decode(s, 0, end)
  {
    hide Decode, Skipped, Prepend, Utf8, ShortEscape, Utf16Literal;
    var allocation := end + 1 - skipped;
    var output := new Byte[allocation + 1];
    var p: nat, n: nat := 0, 0;
    DecodeStart(s, end);
    assert output[..0] == [];
    while p < end
      invariant p <= end + 1 && n + Skipped(s, p) <= p && n <= allocation
      invariant Decode(s, 0, end) == Prepend(output[..n], Decode(s, p, end))
      decreases end + 1 - p
    {
      ghost var out := output[..n];
      DecodeStep(s, p, end, out);
      if s[p] != BACKSLASH {
        RoomFor(s, p, 1, 1, n, end);
        output[n] := s[p];
        assert output[..n + 1] == out + [s[p]];
        p, n := p + 1, n + 1;
      } else {
        var length, written := DecodeEscape(s, p, end, output, n);
        if length == 0 {
          return None;
        }
        p, n := p + length, n + written;
      }
    }
    RoomFor(s, p, 0, 0, n, end);
    output[n] := 0;
    DecodeEnd(s, p, end, output[..n]);
    r := Some(output[..n]);
  }

  /** Writes what the escape at p denotes; length 0 reports an escape that denotes nothing. */
  method DecodeEscape(s: ByteString, p: nat, end: nat, output: array<Byte>, n: nat) returns (length: nat, written: nat)
    requires p < end < |s| && s[end] == QUOTE && n + Skipped(s, p) <= p
    requires output.Length == end + 1 - Skipped(s, end) + 1
    modifies output
    ensures match Escape(s, p, end)
            case None => length == 0
            case Some((bytes, size)) =>
              && length == size > 0 && written == |bytes| && p + length <= end + 1
              && n + written + Skipped(s, p + length) <= p + length && n + written < output.Length
              && output[..n + written] == old(output[..n]) + bytes
  {
    hide Utf8, ShortEscape, Utf16Literal, Skipped;
    RoomFor(s, p, 2, 1, n, end);
    length, written := 0, 0;
    if s[p + 1] == LETTER_U {
      var literal := Utf16Literal(s, p, end);
      if literal.Some? {
        length := literal.value.1;
        RoomFor(s, p, length, |Utf8(literal.value.0)|, n, end);
        written := WriteUtf8(output, n, literal.value.0);
      }
    } else {
      var letter := ShortEscape(s[p + 1]);
      if letter.Some? {
        output[n] := letter.value;
        length, written := 2, 1;
      }
    }
  }

  lemma DecodeStart(s: ByteString, end: nat)
    requires end < |s|
    ensures Decode(s, 0, end) == Prepend([], Decode(s, 0, end)) && Skipped(s, 0) == 0
    ensures forall out: ByteString :: Prepend(out, None) == None
  {
    var rest := Decode(s, 0, end);
    assert rest.Some? ==> [] + rest.value == rest.value;
  }

  lemma DecodeEnd(s: ByteString, p: nat, end: nat, out: ByteString)
    requires end <= p <= end + 1 && end < |s|
    ensures Prepend(out, Decode(s, p, end)) == Some(out)
  {
    assert out + [] == out;
  }

  lemma PrependTwice(a: ByteString, b: ByteString, rest: Option<ByteString>)
    ensures Prepend(a, Prepend(b, rest)) == Prepend(a + b, rest)
  {
    assert rest.Some? ==> a + (b + rest.value) == a + b + rest.value;
  }

  /** One turn of the second pass, with the output already written in front. */
  lemma DecodeStep(s: ByteString, p: nat, end: nat, out: ByteString)
    requires p < end < |s|
    ensures Prepend(out, Decode(s, p, end)) ==
            if s[p] != BACKSLASH then Prepend(out + [s[p]], Decode(s, p + 1, end))
            else
              match Escape(s, p, end)
              case None => None
              case Some((bytes, length)) => Prepend(out + bytes, Decode(s, p + length, end))
  {
    hide Utf8, ShortEscape, Prepend;
    PrependNone(out);
    if s[p] != BACKSLASH {
      PrependTwice(out, [s[p]], Decode(s, p + 1, end));
    } else {
      match Escape(s, p, end)
      case None =>
      case Some((bytes, length)) => PrependTwice(out, bytes, Decode(s, p + length, end));
    }
  }

  lemma PrependNone(out: ByteString)
    ensures Prepend(out, None) == None
  {
  }

  /** Consuming `length` bytes at p pays for `bytes` bytes of output at n. */
  lemma RoomFor(s: ByteString, p: nat, length: nat, bytes: nat, n: nat, end: nat)
    requires end < |s| && s[end] == QUOTE && p + length <= end + 1
    requires n + Skipped(s, p) <= p
    requires bytes <= length / 2 || (length == 1 && bytes == 1 && s[p] != BACKSLASH)
    requires length == 1 || length % 2 == 0
    ensures n + bytes + Skipped(s, p + length) <= p + length
    ensures n + bytes <= end + 1 - Skipped(s, end)
  {
    SkippedStretch(s, p, length);
    SkippedStretch(s, p + length, end + 1 - (p + length));
    assert Skipped(s, end + 1) == Skipped(s, end);
  }

  // ----- What a literal denotes: section 7 of RFC 8259 -----

  datatype Token =
    | Raw(byte: Byte)
    | Short(letter: Byte)
    | Unit(digits: ByteString)
    | Pair(high: ByteString, low: ByteString)

  /** What the grammar lets stand in a literal; an escape of a code point beyond U+FFFF is a surrogate pair. */
  predicate WellFormed(token: Token) {
    match token
    case Raw(b) => b != 0x22 && b != 0x5c
    case Short(letter) => Denoted(letter) != []
    case Unit(digits) => HexDigits(digits) && !(0xD800 <= HexNumber(digits) <= 0xDFFF)
    case Pair(high, low) =>
      && HexDigits(high) && 0xD800 <= HexNumber(high) <= 0xDBFF
      && HexDigits(low) && 0xDC00 <= HexNumber(low) <= 0xDFFF
  }

  function Source(token: Token): ByteString {
    match token
    case Raw(b) => [b]
    case Short(letter) => [0x5c, letter]
    case Unit(digits) => [0x5c, 0x75] + digits
    case Pair(high, low) => [0x5c, 0x75] + high + [0x5c, 0x75] + low
  }

  /** The UTF-8 bytes a token stands for; raw bytes are taken to be UTF-8 already. */
  function Meaning(token: Token): ByteString
    requires WellFormed(token)
  {
    match token
    case Raw(b) => [b]
    case Short(letter) => Denoted(letter)
    case Unit(digits) => Utf8(HexNumber(digits))
    case Pair(high, low) => Utf8(0x10000 + HexNumber(high) % 0x400 * 0x400 + HexNumber(low) % 0x400)
  }

  /** The character that the grammar gives to the letter behind a backslash. */
  function Denoted(letter: Byte): ByteString {
    match letter as int as char
    case '"' => [0x22]
    case '\\' => [0x5c]
    case '/' => [0x2f]
    case 'b' => [0x08]
    case 'f' => [0x0c]
    case 'n' => [0x0a]
    case 'r' => [0x0d]
    case 't' => [0x09]
    case _ => []
  }

  predicate HexDigits(digits: ByteString) {
    |digits| == 4 && forall i | 0 <= i < 4 :: HexDigit(digits[i])
  }

  predicate HexDigit(b: Byte) {
    '0' <= b as int as char <= '9' || 'a' <= b as int as char <= 'f' || 'A' <= b as int as char <= 'F'
  }

  function HexNumber(digits: ByteString): (n: nat)
    requires HexDigits(digits)
    ensures n <= 0xFFFF
  {
    ((Worth(digits[0]) * 16 + Worth(digits[1])) * 16 + Worth(digits[2])) * 16 + Worth(digits[3])
  }

  function Worth(b: Byte): (v: nat)
    requires HexDigit(b)
    ensures v < 16
  {
    if b as int as char <= '9' then b as int - '0' as int
    else if b as int as char >= 'a' then b as int - 'a' as int + 10
    else b as int - 'A' as int + 10
  }

  // ----- The decoder's tables say the same -----

  /** A digit is worth its place in the alphabet of digits, in either case. */
  lemma HexValueMeans(b: Byte, v: nat)
    ensures HexValue(b) == Some(v) <==>
            v < 16 && (b as int == "0123456789abcdef"[v] as int || b as int == "0123456789ABCDEF"[v] as int)
  {
  }

  /** The eight letters and what they stand for. */
  lemma ShortEscapeMeans(letter: Byte, b: Byte)
    ensures ShortEscape(letter) == Some(b) <==>
            (letter as int as char, b as int) in
            {('"', 0x22), ('\\', 0x5c), ('/', 0x2f), ('b', 0x08), ('f', 0x0c), ('n', 0x0a), ('r', 0x0d), ('t', 0x09)}
  {
  }

  /** A surrogate pair stands for the one code point that splits into it. */
  lemma CombineMeans(high: nat, low: nat, c: CodePoint)
    requires 0xD800 <= high <= 0xDBFF && 0xDC00 <= low <= 0xDFFF
    ensures Combine(high, low) == c <==>
            c >= 0x10000 && high == 0xD800 + (c - 0x10000) / 0x400 && low == 0xDC00 + (c - 0x10000) % 0x400
  {
  }

  lemma ShortAgrees(letter: Byte)
    ensures ShortEscape(letter) == if Denoted(letter) == [] then None else Some(Denoted(letter)[0])
    ensures |Denoted(letter)| <= 1
  {
  }

  lemma DigitAgrees(b: Byte)
    ensures HexValue(b) == if HexDigit(b) then Some(Worth(b)) else None
  {
  }

  lemma HexAgrees(digits: ByteString)
    ensures IsHex4(digits) <==> HexDigits(digits)
    ensures IsHex4(digits) ==> Hex4(digits) == HexNumber(digits)
  {
    forall b
      ensures HexValue(b) == if HexDigit(b) then Some(Worth(b)) else None
    {
      DigitAgrees(b);
    }
    hide HexValue, HexDigit, Worth;
  }

  /** The grammar in terms of the decoder. */
  lemma TokenAgrees(token: Token)
    ensures match token
            case Raw(b) => WellFormed(token) <==> b != QUOTE && b != BACKSLASH
            case Short(letter) =>
              && (WellFormed(token) <==> ShortEscape(letter).Some?)
              && (WellFormed(token) ==> Meaning(token) == [ShortEscape(letter).value])
            case Unit(digits) =>
              && (WellFormed(token) <==>
                    IsHex4(digits) && !HighSurrogate(Hex4(digits)) && !LowSurrogate(Hex4(digits)))
              && (WellFormed(token) ==> Meaning(token) == Utf8(Hex4(digits)))
            case Pair(high, low) =>
              && (WellFormed(token) <==>
                    IsHex4(high) && IsHex4(low) && HighSurrogate(Hex4(high)) && LowSurrogate(Hex4(low)))
              && (WellFormed(token) ==> Meaning(token) == Utf8(Combine(Hex4(high), Hex4(low))))
  {
    match token
    case Raw(_) =>
    case Short(letter) => ShortAgrees(letter);
    case Unit(digits) =>
      HexAgrees(digits);
      hide HexNumber, Hex4, IsHex4, HexDigits, Utf8;
    case Pair(high, low) =>
      HexAgrees(high);
      HexAgrees(low);
      hide HexNumber, Hex4, IsHex4, HexDigits, Utf8, Combine;
      if WellFormed(token) {
        CombineAgrees(HexNumber(high), HexNumber(low));
      }
  }

  lemma CombineAgrees(high: nat, low: nat)
    requires 0xD800 <= high <= 0xDBFF && 0xDC00 <= low <= 0xDFFF
    ensures Combine(high, low) == 0x10000 + high % 0x400 * 0x400 + low % 0x400
  {
  }

  function SourceAll(tokens: seq<Token>): ByteString {
    if tokens == [] then [] else Source(tokens[0]) + SourceAll(tokens[1..])
  }

  function MeaningAll(tokens: seq<Token>): ByteString
    requires forall i | 0 <= i < |tokens| :: WellFormed(tokens[i])
  {
    if tokens == [] then [] else Meaning(tokens[0]) + MeaningAll(tokens[1..])
  }

  /** A literal with well-formed escapes ends at its quote and decodes to the UTF-8 of what it denotes. */
  lemma {:induction false} LiteralMeaning(s: ByteString, p: nat, end: nat, tokens: seq<Token>)
    requires p <= end < |s| && s[end] == QUOTE && s[p..end] == SourceAll(tokens)
    requires forall i | 0 <= i < |tokens| :: WellFormed(tokens[i])
    ensures LiteralEnd(s, p) == Some(end)
    ensures Decode(s, p, end) == Some(MeaningAll(tokens))
    decreases tokens
  {
    hide Source, Meaning, Decode, LiteralEnd, WellFormed;
    if tokens == [] {
      LiteralStop(s, end);
    } else {
      var source := Source(tokens[0]);
      var next := p + |source|;
      assert s[p..end] == source + SourceAll(tokens[1..]);
      assert s[p..next] == s[p..end][..|source|] == source;
      assert s[next..end] == s[p..end][|source|..];
      LiteralMeaning(s, next, end, tokens[1..]);
      TokenStep(s, p, end, tokens[0]);
    }
  }

  lemma LiteralStop(s: ByteString, end: nat)
    requires end < |s| && s[end] == QUOTE
    ensures LiteralEnd(s, end) == Some(end) && Decode(s, end, end) == Some([])
  {
  }

  lemma TokenStep(s: ByteString, p: nat, end: nat, token: Token)
    requires WellFormed(token)
    requires p + |Source(token)| <= end < |s| && s[p..p + |Source(token)|] == Source(token)
    ensures LiteralEnd(s, p) == LiteralEnd(s, p + |Source(token)|)
    ensures Decode(s, p, end) == Prepend(Meaning(token), Decode(s, p + |Source(token)|, end))
  {
    TokenAgrees(token);
    hide Utf8, HexValue, Hex4, ShortEscape, WellFormed, Meaning;
    var source := Source(token);
    assert s[p] == source[0];
    match token
    case Raw(b) => assert Meaning(token) == [b] by { RawMeaning(b); }
    case Short(letter) =>
      assert s[p + 1] == source[1] == letter;
      assert letter != LETTER_U by { LettersAreNotU(letter); }
    case Unit(digits) =>
      assert s[p + 1] == source[1];
      assert s[p + 2..p + 6] == source[2..] == digits;
      UnitStep(s, p, end);
    case Pair(high, low) =>
      PairAt(s, p, high, low);
      PairStep(s, p, end);
  }

  lemma RawMeaning(b: Byte)
    requires WellFormed(Raw(b))
    ensures Meaning(Raw(b)) == [b]
  {
  }

  lemma PairAt(s: ByteString, p: nat, high: ByteString, low: ByteString)
    requires |high| == |low| == 4 && p + 12 <= |s| && s[p..p + 12] == Source(Pair(high, low))
    ensures s[p] == s[p + 6] == BACKSLASH && s[p + 1] == s[p + 7] == LETTER_U
    ensures s[p + 2..p + 6] == high && s[p + 8..p + 12] == low
  {
    var source := Source(Pair(high, low));
    assert forall i | 0 <= i < 12 :: s[p + i] == source[i];
    assert s[p + 2..p + 6] == source[2..6] == high;
    assert s[p + 8..p + 12] == source[8..12] == low;
  }

  lemma LettersAreNotU(letter: Byte)
    ensures ShortEscape(letter).Some? ==> letter != LETTER_U
  {
  }

  lemma UnitStep(s: ByteString, p: nat, end: nat)
    requires p + 6 <= end < |s| && s[p] == BACKSLASH && s[p + 1] == LETTER_U
    requires IsHex4(s[p + 2..p + 6])
    ensures LiteralEnd(s, p) == LiteralEnd(s, p + 6)
    ensures var code := Hex4(s[p + 2..p + 6]);
            !HighSurrogate(code) && !LowSurrogate(code) ==>
              Decode(s, p, end) == Prepend(Utf8(code), Decode(s, p + 6, end))
  {
    hide Utf8, IsHex4, Hex4;
    HexRun(s, p + 2);
  }

  lemma PairStep(s: ByteString, p: nat, end: nat)
    requires p + 12 <= end < |s| && s[p] == s[p + 6] == BACKSLASH && s[p + 1] == s[p + 7] == LETTER_U
    requires IsHex4(s[p + 2..p + 6]) && IsHex4(s[p + 8..p + 12])
    ensures LiteralEnd(s, p) == LiteralEnd(s, p + 12)
    ensures var high, low := Hex4(s[p + 2..p + 6]), Hex4(s[p + 8..p + 12]);
            HighSurrogate(high) && LowSurrogate(low) ==>
              Decode(s, p, end) == Prepend(Utf8(Combine(high, low)), Decode(s, p + 12, end))
  {
    hide Utf8, IsHex4, Hex4;
    HexRun(s, p + 2);
    HexRun(s, p + 8);
  }

  /** The first pass walks over plain bytes one by one. */
  lemma {:induction false} PlainRun(s: ByteString, p: nat, n: nat)
    requires p + n <= |s| && forall i | p <= i < p + n :: s[i] != QUOTE && s[i] != BACKSLASH
    ensures LiteralEnd(s, p) == LiteralEnd(s, p + n)
    decreases n
  {
    if n > 0 {
      PlainRun(s, p + 1, n - 1);
    }
  }

  lemma HexRun(s: ByteString, p: nat)
    requires p + 4 <= |s| && IsHex4(s[p..p + 4])
    ensures LiteralEnd(s, p) == LiteralEnd(s, p + 4)
  {
    var digits := s[p..p + 4];
    forall i | p <= i < p + 4
      ensures s[i] != QUOTE && s[i] != BACKSLASH
    {
      assert s[i] == digits[i - p];
    }
    PlainRun(s, p, 4);
  }

  // ----- What the decoder accepts beyond that -----

  /** Section 7 of RFC 8259 also keeps control characters out, except where `controls` lets them pass. */
  predicate Conforming(token: Token, controls: bool) {
    WellFormed(token) && (token.Raw? && token.byte < 0x20 ==> controls)
  }

  /**
   Wherever the decoder comes by, a \u has four hexadecimal digits, and a byte taken as it stands is no
   control character unless these may pass.
   */
  predicate Clean(s: ByteString, p: nat, end: nat, controls: bool)
    requires end < |s|
    decreases end + 1 - p
  {
    if p >= end then p == end
    else if s[p] != BACKSLASH then (s[p] < 0x20 ==> controls) && Clean(s, p + 1, end, controls)
    else
      match Escape(s, p, end)
      case None => true
      case Some((_, length)) =>
        (s[p + 1] == LETTER_U ==> IsHex4(s[p + 2..p + 6])) && Clean(s, p + length, end, controls)
  }

  ghost predicate Spells(body: ByteString, tokens: seq<Token>, controls: bool) {
    (forall i | 0 <= i < |tokens| :: Conforming(tokens[i], controls)) && body == SourceAll(tokens)
  }

  /** A literal that the decoder accepts follows the grammar exactly when it is clean. */
  lemma AcceptedIsGrammar(s: ByteString, p: nat, end: nat, controls: bool)
    requires p <= |s| && LiteralEnd(s, p) == Some(end)
    ensures Decode(s, p, end).Some? && Clean(s, p, end, controls) <==>
            exists tokens: seq<Token> :: Spells(s[p..end], tokens, controls)
  {
    hide Decode, Clean, Spells;
    if Decode(s, p, end).Some? && Clean(s, p, end, controls) {
      var tokens := Tokenize(s, p, end, controls);
    }
    if exists tokens: seq<Token> :: Spells(s[p..end], tokens, controls) {
      var tokens: seq<Token> :| Spells(s[p..end], tokens, controls);
      SpelledIsClean(s, p, end, tokens, controls);
    }
  }

  lemma {:induction false} Tokenize(s: ByteString, p: nat, end: nat, controls: bool) returns (tokens: seq<Token>)
    requires p <= |s| && LiteralEnd(s, p) == Some(end) && Decode(s, p, end).Some? && Clean(s, p, end, controls)
    ensures Spells(s[p..end], tokens, controls)
    decreases end - p
  {
    if p == end {
      tokens := [];
      assert s[p..end] == [];
    } else {
      var token := FirstToken(s, p, end, controls);
      var next := p + |Source(token)|;
      TokenLeaves(s, p, end, token, controls);
      hide *;
      var rest := Tokenize(s, next, end, controls);
      tokens := [token] + rest;
      SpellsOneMore(s, p, next, end, token, rest, controls);
    }
  }

  lemma TokenLeaves(s: ByteString, p: nat, end: nat, token: Token, controls: bool)
    requires Conforming(token, controls)
    requires p + |Source(token)| <= end < |s| && s[p..p + |Source(token)|] == Source(token)
    ensures |Source(token)| > 0 && LiteralEnd(s, p) == LiteralEnd(s, p + |Source(token)|)
    ensures Decode(s, p, end).Some? <==> Decode(s, p + |Source(token)|, end).Some?
  {
    hide Decode, LiteralEnd, Meaning;
    TokenStep(s, p, end, token);
  }

  lemma SpellsOneMore(s: ByteString, p: nat, next: nat, end: nat, token: Token, rest: seq<Token>, controls: bool)
    requires p <= next <= end <= |s| && s[p..next] == Source(token) && Conforming(token, controls)
    requires Spells(s[next..end], rest, controls)
    ensures Spells(s[p..end], [token] + rest, controls)
  {
    hide Source, Conforming;
    assert ([token] + rest)[1..] == rest;
    assert s[p..end] == s[p..next] + s[next..end];
  }

  /** The token at the front of a clean literal that is accepted. */
  lemma FirstToken(s: ByteString, p: nat, end: nat, controls: bool) returns (token: Token)
    requires p < end <= |s| && LiteralEnd(s, p) == Some(end) && Decode(s, p, end).Some? && Clean(s, p, end, controls)
    ensures Conforming(token, controls) && p + |Source(token)| <= end && s[p..p + |Source(token)|] == Source(token)
    ensures Clean(s, p + |Source(token)|, end, controls)
  {
    if s[p] != BACKSLASH {
      token := Raw(s[p]);
    } else {
      assert s[p + 1] == LETTER_U ==> IsHex4(s[p + 2..p + 6]);
      assert LiteralEnd(s, p + 2) == Some(end);
      token := FirstEscape(s, p, end);
      NextClean(s, p, end, controls);
      hide *;
      ConformingEscape(token, controls);
    }
  }

  lemma ConformingEscape(token: Token, controls: bool)
    requires WellFormed(token) && !token.Raw?
    ensures Conforming(token, controls)
  {
    hide WellFormed;
  }

  lemma FirstEscape(s: ByteString, p: nat, end: nat) returns (token: Token)
    requires p + 2 <= end < |s| && s[p] == BACKSLASH && Escape(s, p, end).Some?
    requires s[p + 1] == LETTER_U ==> IsHex4(s[p + 2..p + 6])
    ensures WellFormed(token) && !token.Raw? && |Source(token)| == Escape(s, p, end).value.1
    ensures p + |Source(token)| <= end && s[p..p + |Source(token)|] == Source(token)
  {
    hide Utf8, Hex4, IsHex4, ShortEscape, Utf16Literal;
    if s[p + 1] == LETTER_U {
      token := FirstUnit(s, p, end);
    } else {
      token := Short(s[p + 1]);
      TokenAgrees(token);
    }
  }

  lemma NextClean(s: ByteString, p: nat, end: nat, controls: bool)
    requires p < end < |s| && s[p] == BACKSLASH && Escape(s, p, end).Some? && Clean(s, p, end, controls)
    ensures Clean(s, p + Escape(s, p, end).value.1, end, controls)
  {
  }

  lemma FirstUnit(s: ByteString, p: nat, end: nat) returns (token: Token)
    requires p < end < |s| && s[p] == BACKSLASH && s[p + 1] == LETTER_U && Escape(s, p, end).Some?
    requires IsHex4(s[p + 2..p + 6])
    ensures WellFormed(token) && !token.Raw? && |Source(token)| == Escape(s, p, end).value.1
    ensures p + |Source(token)| <= end && s[p..p + |Source(token)|] == Source(token)
  {
    hide Utf8, Hex4, IsHex4, HexValue, WellFormed, Meaning;
    var length := Escape(s, p, end).value.1;
    var first := s[p + 2..p + 6];
    if length == 6 {
      token := Unit(first);
    } else {
      var second := s[p + 8..p + 12];
      NoDigitsNoSurrogate(second);
      token := Pair(first, second);
    }
    TokenAgrees(token);
    hide *;
    SourceAt(s, p, length);
  }

  lemma SourceAt(s: ByteString, p: nat, length: nat)
    requires (length == 6 || length == 12) && p + length <= |s|
    requires s[p] == BACKSLASH && s[p + 1] == LETTER_U
    requires length == 12 ==> s[p + 6] == BACKSLASH && s[p + 7] == LETTER_U
    ensures length == 6 ==> s[p..p + 6] == Source(Unit(s[p + 2..p + 6]))
    ensures length == 12 ==> s[p..p + 12] == Source(Pair(s[p + 2..p + 6], s[p + 8..p + 12]))
  {
    assert s[p..p + 6] == [BACKSLASH, LETTER_U] + s[p + 2..p + 6];
    if length == 12 {
      assert s[p + 6..p + 12] == [BACKSLASH, LETTER_U] + s[p + 8..p + 12];
      var high, low := s[p + 2..p + 6], s[p + 8..p + 12];
      assert s[p..p + 12] == s[p..p + 6] + s[p + 6..p + 12];
      hide *;
      Regrouped([BACKSLASH, LETTER_U], high, low);
      PairSource(high, low);
    }
  }

  lemma Regrouped(u: ByteString, a: ByteString, b: ByteString)
    ensures u + a + (u + b) == u + a + u + b
  {
  }

  lemma PairSource(high: ByteString, low: ByteString)
    ensures Source(Pair(high, low)) == [BACKSLASH, LETTER_U] + high + [BACKSLASH, LETTER_U] + low
  {
  }

  lemma NoDigitsNoSurrogate(digits: ByteString)
    requires |digits| == 4
    ensures LowSurrogate(Hex4(digits)) ==> IsHex4(digits)
  {
  }

  lemma {:induction false} SpelledIsClean(s: ByteString, p: nat, end: nat, tokens: seq<Token>, controls: bool)
    requires p <= |s| && LiteralEnd(s, p) == Some(end) && Spells(s[p..end], tokens, controls)
    ensures Decode(s, p, end).Some? && Clean(s, p, end, controls)
    decreases tokens
  {
    hide *;
    if tokens == [] {
      SpelledNothing(s, p, end, controls);
    } else {
      var next := SpelledOne(s, p, end, tokens, controls);
      TokenLeaves(s, p, end, tokens[0], controls);
      SpelledIsClean(s, next, end, tokens[1..], controls);
      TokenIsClean(s, p, end, tokens[0], controls);
    }
  }

  lemma SpelledNothing(s: ByteString, p: nat, end: nat, controls: bool)
    requires p <= |s| && LiteralEnd(s, p) == Some(end) && Spells(s[p..end], [], controls)
    ensures Decode(s, p, end).Some? && Clean(s, p, end, controls)
  {
    assert s[p..end] == [];
  }

  /** The first token and what it leaves. */
  lemma SpelledOne(s: ByteString, p: nat, end: nat, tokens: seq<Token>, controls: bool) returns (next: nat)
    requires p <= end < |s| && tokens != [] && Spells(s[p..end], tokens, controls)
    ensures next == p + |Source(tokens[0])| <= end && s[p..next] == Source(tokens[0])
    ensures Conforming(tokens[0], controls) && Spells(s[next..end], tokens[1..], controls)
  {
    hide Source, Meaning, WellFormed;
    var source := Source(tokens[0]);
    next := p + |source|;
    assert s[p..end] == source + SourceAll(tokens[1..]);
    assert s[p..next] == s[p..end][..|source|] == source;
    assert s[next..end] == s[p..end][|source|..];
  }

  lemma TokenIsClean(s: ByteString, p: nat, end: nat, token: Token, controls: bool)
    requires Conforming(token, controls)
    requires p + |Source(token)| <= end < |s| && s[p..p + |Source(token)|] == Source(token)
    requires Clean(s, p + |Source(token)|, end, controls)
    ensures Clean(s, p, end, controls)
  {
    TokenAgrees(token);
    hide Utf8, HexValue, Hex4, ShortEscape, WellFormed, Meaning;
    var source := Source(token);
    assert s[p] == source[0];
    match token
    case Raw(b) =>
    case Short(letter) =>
      assert s[p + 1] == source[1] == letter;
      assert letter != LETTER_U by { LettersAreNotU(letter); }
    case Unit(digits) =>
      assert s[p + 1] == source[1];
      assert s[p + 2..p + 6] == source[2..] == digits;
    case Pair(high, low) =>
      PairAt(s, p, high, low);
  }

  /** The code point of an encoding: the payload bits of its bytes put together. */
  function Utf8Value(bytes: ByteString): nat
    requires 1 <= |bytes| <= 4
  {
    if |bytes| == 1 then bytes[0] as nat
    else if |bytes| == 2 then bytes[0] as nat % 32 * 64 + bytes[1] as nat % 64
    else if |bytes| == 3 then bytes[0] as nat % 16 * 4096 + bytes[1] as nat % 64 * 64 + bytes[2] as nat % 64
    else
      bytes[0] as nat % 8 * 262144 + bytes[1] as nat % 64 * 4096 + bytes[2] as nat % 64 * 64 + bytes[3] as nat % 64
  }

  /** The table of section 3 of RFC 3629: marks in the high bits, six bits of payload in every further byte. */
  lemma Utf8Means(code: CodePoint)
    ensures var u := seq(|Utf8(code)|, i requires 0 <= i < |Utf8(code)| => Utf8(code)[i] as int);
            && (forall i | 1 <= i < |u| :: 0x80 <= u[i] < 0xC0)
            && if code < 0x80 then |u| == 1 && code == u[0]
               else if code < 0x800 then |u| == 2 && code == (u[0] - 0xC0) * 0x40 + u[1] - 0x80
               else if code < 0x10000 then
                 |u| == 3 && code == (u[0] - 0xE0) * 0x1000 + (u[1] - 0x80) * 0x40 + u[2] - 0x80
               else
                 |u| == 4 && code == (u[0] - 0xF0) * 0x40000 + (u[1] - 0x80) * 0x1000 + (u[2] - 0x80) * 0x40 +
                                     u[3] - 0x80
  {
    SixBits(code);
    SixBits(code / 64);
    SixBits(code / 4096);
    assert code / 64 / 64 == code / 4096 && code / 4096 / 64 == code / 262144;
  }

  /** The encoding loses nothing. */
  lemma Utf8RoundTrip(code: CodePoint)
    ensures Utf8Value(Utf8(code)) == code
  {
    if code < 0x800 {
      SixBits(code);
      assert code >= 0x80 ==> (0xC0 + code / 64) % 32 == code / 64;
    } else if code < 0x10000 {
      Utf8ThreeBytes(code);
    } else {
      Utf8FourBytes(code);
    }
  }

  lemma Utf8ThreeBytes(code: CodePoint)
    requires 0x800 <= code < 0x10000
    ensures Utf8Value(Utf8(code)) == code
  {
    SixBits(code);
    SixBits(code / 64);
    assert code / 64 / 64 == code / 4096;
    assert (0xE0 + code / 4096) % 16 == code / 4096;
  }

  lemma Utf8FourBytes(code: CodePoint)
    requires 0x10000 <= code
    ensures Utf8Value(Utf8(code)) == code
  {
    SixBits(code);
    SixBits(code / 64);
    SixBits(code / 4096);
    assert code / 64 / 64 == code / 4096 && code / 4096 / 64 == code / 262144;
    assert (0xF0 + code / 262144) % 8 == code / 262144;
  }

  lemma SixBits(n: nat)
    ensures n == n / 64 * 64 + n % 64 && (0x80 + n % 64) % 64 == n % 64
  {
  }

  /** The parser is more lenient than the grammar: four bytes that are not all hexadecimal read as U+0000. */
  lemma InvalidHexIsAccepted(digits: ByteString)
    requires |digits| == 4 && !IsHex4(digits) && QUOTE !in digits && BACKSLASH !in digits
    ensures var s := [BACKSLASH, LETTER_U] + digits + [QUOTE];
            LiteralEnd(s, 0) == Some(6) && Decode(s, 0, 6) == Some([0])
  {
    var s := [BACKSLASH, LETTER_U] + digits + [QUOTE];
    assert s[2..6] == digits;
    assert forall i | 2 <= i < 6 :: s[i] == digits[i - 2] && s[i] in digits;
    PlainRun(s, 2, 4);
    assert LiteralEnd(s, 0) == LiteralEnd(s, 2);
    assert Utf16Literal(s, 0, 6) == Some((0, 6));
    assert Decode(s, 6, 6) == Some([]);
    assert Escape(s, 0, 6) == Some(([0], 6));
    assert [0 as Byte] + [] == [0];
  }

  // ----- Printing -----

  function LowerHex(n: Byte): Byte
    requires n < 16
  {
    if n < 10 then 0x30 + n else 0x61 + (n - 10)
  }

  predicate NeedsEscape(b: Byte) {
    b <= 31 || b == QUOTE || b == BACKSLASH
  }

  /** The letter of the two-character escape of a byte, if it has one. */
  function EscapeLetter(b: Byte): Option<Byte> {
    match b
    case 0x22 => Some(0x22)
    case 0x5c => Some(0x5c)
    case 0x08 => Some(0x62)
    case 0x0c => Some(0x66)
    case 0x0a => Some(0x6e)
    case 0x0d => Some(0x72)
    case 0x09 => Some(0x74)
    case _ => None
  }

  function TokenOf(b: Byte): Token {
    if !NeedsEscape(b) then Raw(b)
    else
      match EscapeLetter(b)
      case Some(letter) => Short(letter)
      case None => Unit([0x30, 0x30, LowerHex(b / 16), LowerHex(b % 16)])
  }

  /** What is printed for a byte: itself, or a backslash and a letter. */
  lemma TokenOfMeans(b: Byte)
    requires b >= 0x20 || b in {0x08, 0x09, 0x0a, 0x0c, 0x0d}
    ensures Source(TokenOf(b)) ==
            match b
            case 0x22 => Ascii("\\\"")
            case 0x5c => Ascii("\\\\")
            case 0x08 => Ascii("\\b")
            case 0x0c => Ascii("\\f")
            case 0x0a => Ascii("\\n")
            case 0x0d => Ascii("\\r")
            case 0x09 => Ascii("\\t")
            case _ => [b]
  {
  }

  /** The other control characters are printed by number. */
  lemma ControlMeans(b: Byte)
    requires b < 0x20 && b !in {0x08, 0x09, 0x0a, 0x0c, 0x0d}
    ensures Source(TokenOf(b)) ==
            Ascii("\\u00") + Ascii(["0123456789abcdef"[b / 16]]) + Ascii(["0123456789abcdef"[b % 16]])
  {
    LowerHexMeans(b / 16);
    LowerHexMeans(b % 16);
    var h, l := LowerHex(b / 16), LowerHex(b % 16);
    hide LowerHex;
    assert TokenOf(b) == Unit([0x30, 0x30, h, l]);
    assert Ascii("\\u00") == [0x5c, 0x75, 0x30, 0x30];
  }

  lemma LowerHexMeans(n: Byte)
    requires n < 16
    ensures [LowerHex(n)] == Ascii(["0123456789abcdef"[n]])
  {
  }

  function EscapeText(text: ByteString): ByteString {
    if text == [] then [] else Source(TokenOf(text[0])) + EscapeText(text[1..])
  }

  function Quoted(text: ByteString): ByteString {
    [QUOTE] + EscapeText(text) + [QUOTE]
  }

  function Tokens(text: ByteString): (tokens: seq<Token>)
    ensures |tokens| == |text|
  {
    seq(|text|, i requires 0 <= i < |text| => TokenOf(text[i]))
  }

  /** What is printed for a byte conforms to the grammar, control characters included, and stands for that byte. */
  lemma TokenOfByte(b: Byte)
    ensures Conforming(TokenOf(b), false) && Meaning(TokenOf(b)) == [b]
  {
    TokenAgrees(TokenOf(b));
    if NeedsEscape(b) && EscapeLetter(b).None? {
      var h, l := LowerHex(b / 16), LowerHex(b % 16);
      assert HexValue(h) == Some((b / 16) as nat) && HexValue(l) == Some((b % 16) as nat);
      assert Hex4([0x30, 0x30, h, l]) == b as nat;
    }
  }

  lemma {:induction false} TokensOfText(text: ByteString)
    ensures forall i | 0 <= i < |Tokens(text)| :: WellFormed(Tokens(text)[i])
    ensures SourceAll(Tokens(text)) == EscapeText(text)
    ensures MeaningAll(Tokens(text)) == text
  {
    forall i | 0 <= i < |text|
      ensures WellFormed(Tokens(text)[i])
    {
      TokenOfByte(text[i]);
    }
    if text != [] {
      TokensOfText(text[1..]);
      TokenOfByte(text[0]);
      assert Tokens(text)[1..] == Tokens(text[1..]);
    }
  }

  /** Reading back a printed text gives the text, whatever follows the closing quote. */
  lemma QuotedRoundTrip(text: ByteString, tail: ByteString)
    ensures var body := EscapeText(text) + [QUOTE] + tail;
            && LiteralEnd(body, 0) == Some(|EscapeText(text)|)
            && Decode(body, 0, |EscapeText(text)|) == Some(text)
  {
    var body := EscapeText(text) + [QUOTE] + tail;
    TokensOfText(text);
    assert body[0..|EscapeText(text)|] == EscapeText(text);
    LiteralMeaning(body, 0, |EscapeText(text)|, Tokens(text));
  }

  /** A printed text holds no zero byte. */
  lemma {:induction false} EscapeTextNulFree(text: ByteString)
    ensures 0 !in EscapeText(text)
  {
    if text != [] {
      EscapeTextNulFree(text[1..]);
    }
  }
}
