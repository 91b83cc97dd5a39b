/** Game identifiers: a canonical path below the ROM root, hashed together with its system. */
module GameId {
  import opened Bytes
  import opened Wrappers
  import Sha256

  const SLASH: Byte := 0x2f
  const DOT: ByteString := Ascii(".")
  const DOT_DOT: ByteString := Ascii("..")
  const ROM_ROOT: ByteString := Ascii("/mnt/SDCARD/Roms/")

  datatype Error = InvalidArguments | OutsideRoot | UnsafeCharacter | Traversal | TooLong | NotAFile

  // ----- Paths as lists of segments -----

  function Split(path: ByteString): (segments: seq<ByteString>)
    ensures |segments| > 0
  {
    if path == [] then [[]]
    else
      var rest := Split(path[1..]);
      if path[0] == SLASH then [[]] + rest else [[path[0]] + rest[0]] + rest[1..]
  }

  function Join(segments: seq<ByteString>): ByteString {
    if segments == [] then []
    else if |segments| == 1 then segments[0]
    else segments[0] + [SLASH] + Join(segments[1..])
  }

  predicate Unsafe(b: Byte) {
    b < 0x20 || b == 0x7f || b == 0x5c
  }

  predicate HasUnsafe(segment: ByteString) {
    exists i | 0 <= i < |segment| :: Unsafe(segment[i])
  }

  predicate Dropped(segment: ByteString) {
    segment == [] || segment == DOT
  }

  function Keep(segments: seq<ByteString>): seq<ByteString> {
    if segments == [] then []
    else if Dropped(segments[0]) then Keep(segments[1..])
    else [segments[0]] + Keep(segments[1..])
  }

  /** Appends a segment to the text built so far. */
  function Extend(built: ByteString, segment: ByteString): ByteString {
    if built == [] then segment else built + [SLASH] + segment
  }

  /** The segments taken in order; the first offending one decides the error. */
  function Scan(segments: seq<ByteString>, built: ByteString, size: nat): Result<ByteString, Error> {
    if segments == [] then Ok(built)
    else
      var segment := segments[0];
      if HasUnsafe(segment) then Err(UnsafeCharacter)
      else if Dropped(segment) then Scan(segments[1..], built, size)
      else if segment == DOT_DOT then Err(Traversal)
      else if |Extend(built, segment)| >= size then Err(TooLong)
      else Scan(segments[1..], Extend(built, segment), size)
  }

  function NormalPath(romPath: ByteString, size: nat): Result<ByteString, Error> {
    if !(ROM_ROOT <= romPath) then Err(OutsideRoot)
    else
      match Scan(Split(romPath[|ROM_ROOT|..]), [], size)
      case Err(e) => Err(e)
      case Ok(built) => if built == [] || romPath[|romPath| - 1] == SLASH then Err(NotAFile) else Ok(built)
  }

  // ----- The byte loop -----

  method NormalizePath(romPath: ByteString, size: nat) returns (r: Result<ByteString, Error>)
    ensures r == NormalPath(romPath, size)
  {
    hide Scan, Split;
    if !(ROM_ROOT <= romPath) {
      return Err(OutsideRoot);
    }
    r := ReadSegments(romPath[|ROM_ROOT|..], size);
    if r.Ok? && (r.value == [] || romPath[|romPath| - 1] == SLASH) {
      r := Err(NotAFile);
    }
  }

  method ReadSegments(input: ByteString, size: nat) returns (r: Result<ByteString, Error>)
    ensures r == Scan(Split(input), [], size)
  {
    hide Scan, Split;
    var relative: ByteString := [];
    var at := 0;
    ghost var outcome := Scan(Split(input), [], size);
    while at < |input|
      invariant at <= |input|
      invariant outcome == Scan(Split(input[at..]), relative, size)
    {
      var start := SkipSlashes(input, at, relative, size);
      var safe;
      at, safe := SegmentEnd(input, start);
      if !safe {
        ScanUnsafe(input[start..], at - start, relative, size);
        return Err(UnsafeCharacter);
      }
      var segment := input[start..at];
      assert input[start..] == segment + input[at..];
      ScanSegment(segment, input[at..], relative, size);
      if segment == [] {
        break;
      }
      if segment == DOT {
        continue;
      }
      if segment == DOT_DOT {
        return Err(Traversal);
      }
      if |relative| + (if relative != [] then 1 else 0) + |segment| >= size {
        return Err(TooLong);
      }
      ghost var extended := Extend(relative, segment);
      if relative != [] {
        relative := relative + [SLASH];
      }
      relative := relative + segment;
      assert relative == extended;
    }
    assert input[at..] == [];
    ScanEnd(relative, size);
    return Ok(relative);
  }

  method SegmentEnd(input: ByteString, start: nat) returns (at: nat, safe: bool)
    requires start <= |input|
    ensures start <= at <= |input| && SLASH !in input[start..at]
    ensures safe ==> forall k :: start <= k < at ==> !Unsafe(input[k])
    ensures safe ==> at == |input| || input[at] == SLASH
    ensures !safe ==> at < |input| && input[at] != SLASH && Unsafe(input[at])
  {
    at := start;
    while at < |input| && input[at] != SLASH
      invariant start <= at <= |input|
      invariant forall k :: start <= k < at ==> input[k] != SLASH && !Unsafe(input[k])
    {
      if Unsafe(input[at]) {
        return at, false;
      }
      at := at + 1;
    }
    safe := true;
  }

  method SkipSlashes(input: ByteString, from: nat, ghost built: ByteString, ghost size: nat) returns (at: nat)
    requires from <= |input|
    ensures from <= at <= |input|
    ensures at < |input| ==> input[at] != SLASH
    ensures Scan(Split(input[at..]), built, size) == Scan(Split(input[from..]), built, size)
  {
    at := from;
    while at < |input| && input[at] == SLASH
      invariant from <= at <= |input|
      invariant Scan(Split(input[at..]), built, size) == Scan(Split(input[from..]), built, size)
    {
      assert input[at..][1..] == input[at + 1..];
      at := at + 1;
    }
  }

  /** No slash in `segment`, and `rest` is empty or starts with one. */
  lemma {:induction false} SplitSegment(segment: ByteString, rest: ByteString)
    requires SLASH !in segment && (rest == [] || rest[0] == SLASH)
    ensures Split(segment + rest) == [segment] + Split(rest)[1..]
  {
    if segment == [] {
      assert segment + rest == rest;
    } else {
      SplitSegment(segment[1..], rest);
      assert (segment + rest)[1..] == segment[1..] + rest;
      var tail := Split(segment[1..] + rest);
      assert tail[0] == segment[1..] && tail[1..] == Split(rest)[1..];
      assert segment[0] in segment && [segment[0]] + tail[0] == segment;
    }
  }

  lemma ScanSegment(segment: ByteString, rest: ByteString, built: ByteString, size: nat)
    requires SLASH !in segment && (rest == [] || rest[0] == SLASH)
    requires forall i | 0 <= i < |segment| :: !Unsafe(segment[i])
    ensures Scan(Split(segment + rest), built, size) ==
            if Dropped(segment) then Scan(Split(rest), built, size)
            else if segment == DOT_DOT then Err(Traversal)
            else if |Extend(built, segment)| >= size then Err(TooLong)
            else Scan(Split(rest), Extend(built, segment), size)
  {
    SplitSegment(segment, rest);
    var segments := Split(rest);
    assert Split(segment + rest)[1..] == segments[1..];
    assert segments == [[]] + segments[1..];
  }

  lemma ScanEnd(built: ByteString, size: nat)
    ensures Scan(Split([]), built, size) == Ok(built)
  {
  }

  /** The first segment of `path` has an unsafe byte at k. */
  lemma ScanUnsafe(path: ByteString, k: nat, built: ByteString, size: nat)
    requires k < |path| && SLASH !in path[..k] && path[k] != SLASH && Unsafe(path[k])
    ensures Scan(Split(path), built, size) == Err(UnsafeCharacter)
  {
    FirstSegment(path, k);
    assert Unsafe(Split(path)[0][k]);
  }

  lemma {:induction false} FirstSegment(path: ByteString, k: nat)
    requires k < |path| && SLASH !in path[..k + 1]
    ensures k < |Split(path)[0]| && Split(path)[0][k] == path[k]
  {
    assert path[0] == path[..k + 1][0];
    if k > 0 {
      assert path[1..][..k] == path[..k + 1][1..];
      FirstSegment(path[1..], k - 1);
    }
  }

  // ----- What the loop decides, without its order of events -----

  ghost predicate Safe(segment: ByteString) {
    segment != DOT_DOT && forall i | 0 <= i < |segment| :: !Unsafe(segment[i])
  }

  ghost predicate AllSafe(segments: seq<ByteString>) {
    forall i | 0 <= i < |segments| :: Safe(segments[i])
  }

  function Glue(built: ByteString, kept: seq<ByteString>): ByteString {
    if kept == [] then built else Extend(built, Join(kept))
  }

  lemma {:induction false} ScanMeaning(segments: seq<ByteString>, built: ByteString, size: nat)
    ensures var kept := Keep(segments);
            var good := AllSafe(segments) && (kept == [] || |Glue(built, kept)| < size);
            if good then Scan(segments, built, size) == Ok(Glue(built, kept)) else Scan(segments, built, size).Err?
  {
    if segments != [] {
      var segment, rest := segments[0], segments[1..];
      assert segments == [segment] + rest;
      assert AllSafe(segments) <==> Safe(segment) && AllSafe(rest);
      if Dropped(segment) {
        ScanMeaning(rest, built, size);
      } else {
        ScanMeaning(rest, Extend(built, segment), size);
        GlueStep(built, segment, Keep(rest));
      }
    }
  }

  lemma GlueStep(built: ByteString, segment: ByteString, kept: seq<ByteString>)
    requires segment != []
    ensures Glue(Extend(built, segment), kept) == Glue(built, [segment] + kept)
    ensures |Glue(built, [segment] + kept)| >= |Extend(built, segment)|
  {
    assert ([segment] + kept)[1..] == kept;
    if kept != [] {
      assert Join([segment] + kept) == segment + [SLASH] + Join(kept);
    }
  }

  /** Acceptance and result: split on '/', drop empty and ".", reject "..", join; a final '/' names no file. */
  lemma NormalPathMeaning(romPath: ByteString, size: nat, r: ByteString)
    ensures NormalPath(romPath, size) == Ok(r) <==>
            && ROM_ROOT <= romPath
            && var segments := Split(romPath[|ROM_ROOT|..]);
            && AllSafe(segments) && Keep(segments) != [] && romPath[|romPath| - 1] != SLASH
            && r == Join(Keep(segments)) && |r| < size
  {
    if ROM_ROOT <= romPath {
      var segments := Split(romPath[|ROM_ROOT|..]);
      ScanMeaning(segments, [], size);
      KeptAreSegments(segments);
    }
  }

  lemma ScanCons(segments: seq<ByteString>, built: ByteString, size: nat)
    requires segments != []
    ensures var next := Scan([segments[0]], built, size);
            Scan(segments, built, size) == if next.Err? then next else Scan(segments[1..], next.value, size)
  {
    var single := [segments[0]];
    assert single[1..] == [];
    assert Scan(single[1..], built, size) == Ok(built);
    assert Scan(single[1..], Extend(built, segments[0]), size) == Ok(Extend(built, segments[0]));
    assert HasUnsafe(single[0]) == HasUnsafe(segments[0]);
  }

  /** The reported error is that of the first offending segment. */
  lemma {:induction false} FirstFault(segments: seq<ByteString>, built: ByteString, size: nat) returns (i: nat)
    requires Scan(segments, built, size).Err?
    ensures i < |segments| && Scan(segments[..i], built, size).Ok?
    ensures Scan([segments[i]], Scan(segments[..i], built, size).value, size) == Scan(segments, built, size)
  {
    ScanCons(segments, built, size);
    var next := Scan([segments[0]], built, size);
    if next.Err? {
      i := 0;
    } else {
      i := FirstFault(segments[1..], next.value, size);
      i := i + 1;
      assert segments[..i] == [segments[0]] + segments[1..][..i - 1];
      assert segments[..i][1..] == segments[1..][..i - 1];
      ScanCons(segments[..i], built, size);
    }
  }

  // ----- Canonical paths -----

  /** Non-empty, and every segment non-empty, not "." or "..", without unsafe bytes. */
  ghost predicate Canonical(path: ByteString) {
    AllSafe(Split(path)) && forall i | 0 <= i < |Split(path)| :: !Dropped(Split(path)[i])
  }

  lemma {:induction false} JoinSplit(path: ByteString)
    ensures Join(Split(path)) == path
    ensures forall i | 0 <= i < |Split(path)| :: SLASH !in Split(path)[i]
  {
    if path != [] {
      JoinSplit(path[1..]);
      var rest := Split(path[1..]);
      if path[0] == SLASH {
        assert ([[]] + rest)[1..] == rest;
      } else {
        assert ([[path[0]] + rest[0]] + rest[1..])[1..] == rest[1..];
      }
    }
  }

  lemma {:induction false} SplitJoin(segments: seq<ByteString>)
    requires segments != [] && forall i | 0 <= i < |segments| :: SLASH !in segments[i]
    ensures Split(Join(segments)) == segments
  {
    if |segments| == 1 {
      SplitSegment(segments[0], []);
      assert segments[0] + [] == segments[0];
    } else {
      var rest := [SLASH] + Join(segments[1..]);
      assert segments[0] + rest == Join(segments);
      SplitJoin(segments[1..]);
      SplitSlashFirst(Join(segments[1..]));
      hide Split, Join;
      SplitSegment(segments[0], rest);
    }
  }

  lemma {:induction false} SplitSlashFirst(path: ByteString)
    ensures Split([SLASH] + path) == [[]] + Split(path)
  {
    assert ([SLASH] + path)[1..] == path;
  }

  lemma {:induction false} SplitSlash(front: ByteString, rest: ByteString)
    ensures Split(front + [SLASH] + rest) == Split(front) + Split(rest)
  {
    var whole := front + [SLASH] + rest;
    if front == [] {
      assert whole[1..] == rest;
    } else {
      assert whole[1..] == front[1..] + [SLASH] + rest;
      SplitSlash(front[1..], rest);
    }
  }

  lemma {:induction false} KeptAreSegments(segments: seq<ByteString>)
    ensures forall i | 0 <= i < |Keep(segments)| :: Keep(segments)[i] in segments && !Dropped(Keep(segments)[i])
    ensures Keep(segments) != [] ==> Join(Keep(segments)) != []
    ensures (forall i | 0 <= i < |segments| :: !Dropped(segments[i])) ==> Keep(segments) == segments
  {
    if segments != [] {
      KeptAreSegments(segments[1..]);
      assert segments == [segments[0]] + segments[1..];
    }
  }

  /** Every accepted path comes out canonical. */
  lemma NormalPathIsCanonical(romPath: ByteString, size: nat)
    requires NormalPath(romPath, size).Ok?
    ensures Canonical(NormalPath(romPath, size).value)
  {
    var segments := Split(romPath[|ROM_ROOT|..]);
    NormalPathMeaning(romPath, size, NormalPath(romPath, size).value);
    JoinSplit(romPath[|ROM_ROOT|..]);
    KeptAreSegments(segments);
    SplitJoin(Keep(segments));
  }

  /** The canonical paths that fit are exactly the ones left alone below the ROM root. */
  lemma CanonicalIsFixed(path: ByteString, size: nat)
    ensures NormalPath(ROM_ROOT + path, size) == Ok(path) <==> Canonical(path) && |path| < size
  {
    var romPath := ROM_ROOT + path;
    assert romPath[|ROM_ROOT|..] == path;
    NormalPathMeaning(romPath, size, path);
    JoinSplit(path);
    KeptAreSegments(Split(path));
    if NormalPath(romPath, size) == Ok(path) {
      NormalPathIsCanonical(romPath, size);
    } else if Canonical(path) && |path| < size {
      LastSegment(path);
    }
  }

  lemma LastSegment(path: ByteString)
    requires path != [] && path[|path| - 1] == SLASH
    ensures Split(path)[|Split(path)| - 1] == []
  {
    assert path == path[..|path| - 1] + [SLASH] + [];
    SplitSlash(path[..|path| - 1], []);
  }

  /** Normalising a second time, below the ROM root again, changes nothing. */
  lemma NormalPathIdempotent(romPath: ByteString, size: nat)
    requires NormalPath(romPath, size).Ok?
    ensures NormalPath(ROM_ROOT + NormalPath(romPath, size).value, size) == NormalPath(romPath, size)
  {
    var path := NormalPath(romPath, size).value;
    NormalPathIsCanonical(romPath, size);
    NormalPathMeaning(romPath, size, path);
    CanonicalIsFixed(path, size);
  }

  /** No segment is empty or ".", as in a path that has been resolved. */
  ghost predicate Solid(path: ByteString) {
    forall i | 0 <= i < |Split(path)| :: !Dropped(Split(path)[i])
  }

  /** A resolved path keeps its name. */
  lemma SolidKept(romPath: ByteString, size: nat)
    requires ROM_ROOT <= romPath && Solid(romPath[|ROM_ROOT|..]) && NormalPath(romPath, size).Ok?
    ensures NormalPath(romPath, size) == Ok(romPath[|ROM_ROOT|..])
  {
    var path := romPath[|ROM_ROOT|..];
    NormalPathMeaning(romPath, size, NormalPath(romPath, size).value);
    KeptAreSegments(Split(path));
    JoinSplit(path);
  }

  ghost predicate AnyUnsafe(segments: seq<ByteString>) {
    exists i :: 0 <= i < |segments| && HasUnsafe(segments[i])
  }

  lemma AnyUnsafeFirst(first: ByteString, rest: seq<ByteString>)
    ensures AnyUnsafe([first] + rest) <==> HasUnsafe(first) || AnyUnsafe(rest)
  {
    var segments := [first] + rest;
    assert segments[0] == first;
    assert forall i | 0 <= i < |rest| :: segments[i + 1] == rest[i];
  }

  /** A path is free of unsafe bytes exactly when its segments are. */
  lemma {:induction false} SplitUnsafe(path: ByteString)
    ensures HasUnsafe(path) <==> AnyUnsafe(Split(path))
  {
    if path == [] {
      assert Split(path) == [[]];
    } else {
      hide AnyUnsafe;
      var rest := Split(path[1..]);
      SplitUnsafe(path[1..]);
      UnsafeFirst(path);
      AnyUnsafeFirst([], rest);
      if path[0] != SLASH {
        assert rest == [rest[0]] + rest[1..];
        AnyUnsafeFirst(rest[0], rest[1..]);
        var first := [path[0]] + rest[0];
        assert first[1..] == rest[0];
        UnsafeFirst(first);
        AnyUnsafeFirst(first, rest[1..]);
      }
    }
  }

  lemma UnsafeFirst(path: ByteString)
    requires path != []
    ensures HasUnsafe(path) <==> Unsafe(path[0]) || HasUnsafe(path[1..])
  {
    assert forall i | 0 <= i < |path| - 1 :: path[1..][i] == path[i + 1];
  }

  lemma SolidJoined(path: ByteString, name: ByteString)
    requires Solid(path) && SLASH !in name && !Dropped(name)
    ensures Solid(path + [SLASH] + name)
  {
    SplitSlash(path, name);
    SplitSegment(name, []);
    assert name + [] == name;
  }

  // ----- The identifier -----

  const ID_LENGTH: nat := 78

  const VERSION: ByteString := Ascii("bloom-game-v1")

  predicate SystemByte(b: Byte) {
    0x61 <= b <= 0x7a || 0x30 <= b <= 0x39 || b == 0x5f || b == 0x2d
  }

  predicate ValidSystem(system: ByteString) {
    system != [] && forall i | 0 <= i < |system| :: SystemByte(system[i])
  }

  /** The bytes that are hashed: the version, the system and the path, with zero bytes between. */
  function Preimage(system: ByteString, path: ByteString): ByteString {
    VERSION + [0] + system + [0] + path
  }

  function HexDigit(n: Byte): Byte
    requires n < 16
  {
    if n < 10 then 0x30 + n else 0x61 + (n - 10)
  }

  function Hex(bytes: ByteString): (text: ByteString)
    ensures |text| == 2 * |bytes|
  {
    if bytes == [] then []
    else
      var last := bytes[|bytes| - 1];
      Hex(bytes[..|bytes| - 1]) + [HexDigit(last / 16), HexDigit(last % 16)]
  }

  function IdOf(system: ByteString, path: ByteString): (id: ByteString)
    ensures |id| == ID_LENGTH
  {
    VERSION + [0x3a] + Hex(Sha256.Digest(Preimage(system, path)))
  }

  predicate HexByte(b: Byte) {
    0x30 <= b <= 0x39 || 0x61 <= b <= 0x66
  }

  predicate ValidId(id: ByteString) {
    && |id| == ID_LENGTH && id[..14] == VERSION + [0x3a]
    && forall i | 14 <= i < |id| :: HexByte(id[i])
  }

  method Create(system: ByteString, romPath: ByteString, idSize: nat, pathSize: nat)
    returns (r: Result<(ByteString, ByteString), Error>)
    ensures !ValidSystem(system) || idSize < ID_LENGTH + 1 || pathSize == 0 ==> r == Err(InvalidArguments)
    ensures ValidSystem(system) && idSize >= ID_LENGTH + 1 && pathSize > 0 ==>
              match NormalPath(romPath, pathSize)
              case Err(e) => r == Err(e)
              case Ok(path) => r == Ok((IdOf(system, path), path))
  {
    if !ValidSystem(system) || idSize < ID_LENGTH + 1 || pathSize == 0 {
      return Err(InvalidArguments);
    }
    var normal := NormalizePath(romPath, pathSize);
    if normal.Err? {
      return Err(normal.error);
    }
    hide Hex;
    var digest := HashParts(system, normal.value);
    var text := HexText(digest);
    r := Ok((VERSION + [0x3a] + text, normal.value));
  }

  method HashParts(system: ByteString, path: ByteString) returns (digest: ByteString)
    ensures digest == Sha256.Digest(Preimage(system, path))
  {
    hide Sha256.Digest, Sha256.HashBlocks, Sha256.Hasher.Valid, Sha256.Hasher.Holds;
    var hash := new Sha256.Hasher();
    hash.Update(VERSION);
    hash.Update([0]);
    hash.Update(system);
    hash.Update([0]);
    hash.Update(path);
    assert hash.consumed == Preimage(system, path);
    digest := hash.Final();
  }

  method HexText(digest: ByteString) returns (text: ByteString)
    ensures text == Hex(digest)
  {
    text := [];
    for i := 0 to |digest|
      invariant text == Hex(digest[..i])
    {
      assert digest[..i + 1][..i] == digest[..i];
      text := text + [HexDigit(digest[i] / 16), HexDigit(digest[i] % 16)];
    }
    assert digest[..|digest|] == digest;
  }

  lemma {:induction false} HexIsHex(bytes: ByteString)
    ensures forall i | 0 <= i < |Hex(bytes)| :: HexByte(Hex(bytes)[i])
  {
    if bytes != [] {
      HexIsHex(bytes[..|bytes| - 1]);
    }
  }

  /** Every identifier that is created is one the validity check accepts. */
  lemma CreatedIdIsValid(system: ByteString, path: ByteString)
    ensures ValidId(IdOf(system, path))
  {
    HexIsHex(Sha256.Digest(Preimage(system, path)));
  }

  lemma {:induction false} HexInjective(a: ByteString, b: ByteString)
    requires Hex(a) == Hex(b)
    ensures a == b
  {
    assert |a| == |b|;
    if a != [] {
      var n := |a| - 1;
      HexParts(a);
      HexParts(b);
      hide Hex, HexDigit;
      HexInjective(a[..n], b[..n]);
      DigitsInjective(a[n], b[n]);
      assert a == a[..n] + [a[n]] && b == b[..n] + [b[n]];
    }
  }

  lemma {:induction false} HexParts(a: ByteString)
    requires a != []
    ensures var n := |a| - 1;
            && Hex(a)[..2 * n] == Hex(a[..n])
            && Hex(a)[2 * n] == HexDigit(a[n] / 16) && Hex(a)[2 * n + 1] == HexDigit(a[n] % 16)
  {
    hide HexDigit;
  }

  lemma {:induction false} DigitsInjective(a: Byte, b: Byte)
    requires HexDigit(a / 16) == HexDigit(b / 16) && HexDigit(a % 16) == HexDigit(b % 16)
    ensures a == b
  {
    assert a == 16 * (a / 16) + a % 16 && b == 16 * (b / 16) + b % 16;
  }

  /** Different games are hashed from different bytes: the preimage determines system and path. */
  lemma PreimageInjective(system: ByteString, path: ByteString, system': ByteString, path': ByteString)
    requires ValidSystem(system) && ValidSystem(system')
    requires Preimage(system, path) == Preimage(system', path')
    ensures system == system' && path == path'
  {
    var p, q := Preimage(system, path)[|VERSION| + 1..], Preimage(system', path')[|VERSION| + 1..];
    assert p == system + [0] + path && q == system' + [0] + path';
    assert p[|system|] == 0 && q[|system'|] == 0;
    assert forall i | 0 <= i < |system| :: SystemByte(p[i]);
    assert forall i | 0 <= i < |system'| :: SystemByte(q[i]);
    assert p[..|system|] == system && q[..|system'|] == system';
    assert p[|system| + 1..] == path && q[|system'| + 1..] == path';
  }

  /** Two games share an identifier only if they are the same game or their preimages collide under SHA-256. */
  lemma SameIdSameGame(system: ByteString, path: ByteString, system': ByteString, path': ByteString)
    requires ValidSystem(system) && ValidSystem(system')
    requires IdOf(system, path) == IdOf(system', path')
    ensures
      || (system == system' && path == path')
      || (Preimage(system, path) != Preimage(system', path')
          && Sha256.Digest(Preimage(system, path)) == Sha256.Digest(Preimage(system', path')))
  {
    var a, b := Sha256.Digest(Preimage(system, path)), Sha256.Digest(Preimage(system', path'));
    hide Sha256.Digest, Hex;
    assert IdOf(system, path)[|VERSION| + 1..] == Hex(a);
    assert IdOf(system', path')[|VERSION| + 1..] == Hex(b);
    HexInjective(a, b);
    if Preimage(system, path) == Preimage(system', path') {
      PreimageInjective(system, path, system', path');
    }
  }

  // ----- In plain terms: paths -----

  /** Control characters, delete and the backslash are not allowed in a path. */
  lemma UnsafeMeans(segment: ByteString)
    ensures HasUnsafe(segment) <==>
            exists i :: 0 <= i < |segment| &&
              (segment[i] < 0x20 || segment[i] == 0x7f || segment[i] as int as char == '\\')
    ensures Safe(segment) <==> segment != Ascii("..") && !HasUnsafe(segment)
    ensures Dropped(segment) <==> segment == [] || segment == Ascii(".")
  {
  }

  /** Splitting cuts at every slash, joining puts slashes back. */
  lemma {:induction false} SplitMeans(path: ByteString, last: ByteString, segments: seq<ByteString>)
    requires forall i | 0 <= i < |last| :: last[i] as int as char != '/'
    ensures Split(last) == [last] && Split(path + Ascii("/") + last) == Split(path) + [last]
    ensures Join([]) == [] && Join([last]) == last
    ensures segments != [] ==> Join([last] + segments) == last + Ascii("/") + Join(segments)
  {
    assert Ascii("/") == [SLASH];
    SplitSlash(path, last);
    SplitSegment(last, []);
    assert last + [] == last;
    assert ([last] + segments)[1..] == segments;
    hide Split;
  }

  lemma {:induction false} KeepMeans(segments: seq<ByteString>, last: ByteString)
    ensures Keep([]) == []
    ensures Keep(segments + [last]) ==
            Keep(segments) + if last == [] || last == Ascii(".") then [] else [last]
  {
    var all := segments + [last];
    if segments == [] {
      assert all[1..] == [];
    } else {
      assert all[1..] == segments[1..] + [last];
      KeepMeans(segments[1..], last);
    }
  }

  /** Which error a path is rejected with. */
  lemma ErrorsMean(romPath: ByteString, segment: ByteString, built: ByteString, size: nat)
    ensures NormalPath(romPath, size) == Err(OutsideRoot) <==> !(Ascii("/mnt/SDCARD/Roms/") <= romPath)
    ensures NormalPath(romPath, size) == Err(NotAFile) <==>
            && Ascii("/mnt/SDCARD/Roms/") <= romPath
            && var scanned := Scan(Split(romPath[17..]), [], size);
            && scanned.Ok? && (scanned.value == [] || romPath[|romPath| - 1] as int as char == '/')
    ensures var longer := if built == [] then segment else built + Ascii("/") + segment;
            Scan([segment], built, size) ==
            if HasUnsafe(segment) then Err(UnsafeCharacter)
            else if segment == [] || segment == Ascii(".") then Ok(built)
            else if segment == Ascii("..") then Err(Traversal)
            else if |longer| >= size then Err(TooLong)
            else Ok(longer)
  {
    if ROM_ROOT <= romPath {
      ScanErrors(Split(romPath[|ROM_ROOT|..]), [], size);
    }
    assert Ascii("/") == [SLASH] && [segment][1..] == [];
    hide Split, HasUnsafe;
  }

  lemma {:induction false} ScanErrors(segments: seq<ByteString>, built: ByteString, size: nat)
    ensures Scan(segments, built, size).Err? ==>
              Scan(segments, built, size).error in {UnsafeCharacter, Traversal, TooLong}
  {
    hide HasUnsafe;
    if segments != [] {
      ScanErrors(segments[1..], built, size);
      ScanErrors(segments[1..], Extend(built, segments[0]), size);
    }
  }

  // ----- In plain terms: identifiers -----

  lemma ValidSystemMeans(system: ByteString)
    ensures ValidSystem(system) <==>
            system != [] && forall i | 0 <= i < |system| ::
              var c := system[i] as int as char;
              'a' <= c <= 'z' || '0' <= c <= '9' || c == '_' || c == '-'
  {
  }

  /** An identifier names its version, and then the hash of the version, the system and the path in hexadecimal. */
  lemma IdMeans(system: ByteString, path: ByteString)
    ensures Preimage(system, path) == Ascii("bloom-game-v1") + [0] + system + [0] + path
    ensures IdOf(system, path) == Ascii("bloom-game-v1") + Ascii(":") + Hex(Sha256.Digest(Preimage(system, path)))
  {
    assert Ascii(":") == [0x3a];
    hide Hex, Sha256.Digest;
  }

  lemma {:induction false} HexMeans(bytes: ByteString, b: Byte)
    ensures Hex([]) == []
    ensures Hex(bytes + [b]) ==
            Hex(bytes) + Ascii(["0123456789abcdef"[b / 16]]) + Ascii(["0123456789abcdef"[b % 16]])
  {
    assert (bytes + [b])[..|bytes|] == bytes;
    DigitMeans(b / 16);
    DigitMeans(b % 16);
    hide HexDigit;
  }

  lemma DigitMeans(n: Byte)
    requires n < 16
    ensures [HexDigit(n)] == Ascii(["0123456789abcdef"[n]])
  {
  }

  /** 78 bytes: the version, a colon and 64 digits. */
  lemma ValidIdMeans(id: ByteString)
    ensures ValidId(id) <==>
            && |id| == 78 && Ascii("bloom-game-v1") + Ascii(":") <= id
            && forall i | 14 <= i < 78 ::
                 '0' <= id[i] as int as char <= '9' || 'a' <= id[i] as int as char <= 'f'
  {
    assert Ascii(":") == [0x3a];
    assert |VERSION + [0x3a]| == 14;
    assert VERSION + [0x3a] <= id <==> |id| >= 14 && id[..14] == VERSION + [0x3a];
  }
}
