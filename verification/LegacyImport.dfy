/** The import of the favorites and recents lists of the previous frontend, one JSON object a line. */
module LegacyImport {
  import opened Bytes
  import opened Wrappers
  import opened GameId
  import opened JsonNumber
  import opened JsonText
  import JsonCompare
  import JsonRoundTrip
  import opened LibraryTables
  import opened RelativePaths

  const MAX_ITEMS: nat := 2048
  const COLON_BYTE: Byte := 0x3a
  const BACKSLASH: Byte := 0x5c

  // ----- Paths -----

  /** Without trailing slashes, but never empty. */
  function Trimmed(root: ByteString): (trimmed: ByteString)
    ensures |trimmed| <= |root|
  {
    if |root| > 1 && root[|root| - 1] == SLASH then Trimmed(root[..|root| - 1]) else root
  }

  function IndexOf(text: ByteString, b: Byte): (at: nat)
    ensures at <= |text| && b !in text[..at] && (at < |text| ==> text[at] == b)
  {
    if text == [] || text[0] == b then 0
    else
      var rest := IndexOf(text[1..], b);
      assert text[..rest + 1] == [text[0]] + text[1..][..rest];
      rest + 1
  }

  /** The text behind the first colon if the root stands there, else the whole text. */
  function AfterColon(root: ByteString, input: ByteString): ByteString {
    var colon := IndexOf(input, COLON_BYTE);
    if colon < |input| && root <= input[colon + 1..] then input[colon + 1..] else input
  }

  ghost predicate Names(root: ByteString, input: ByteString, relative: ByteString) {
    && AfterColon(root, input) == root + [SLASH] + relative
    && Canonical(relative) && |relative| < TEXT_SIZE
  }

  ghost predicate NamesNothing(root: ByteString, input: ByteString) {
    forall relative :: !Names(root, input, relative)
  }

  /** The root as it is given, apart from slashes at its end. */
  lemma {:induction false} TrimmedMeans(root: ByteString)
    ensures Trimmed(root) <= root && forall i | |Trimmed(root)| <= i < |root| :: root[i] as int as char == '/'
    ensures |Trimmed(root)| > 1 ==> Trimmed(root)[|Trimmed(root)| - 1] as int as char != '/'
    ensures root != [] ==> Trimmed(root) != []
  {
    if |root| > 1 && root[|root| - 1] == SLASH {
      TrimmedMeans(root[..|root| - 1]);
      assert forall i | 0 <= i < |root| - 1 :: root[..|root| - 1][i] == root[i];
    }
  }

  /**
   What stands behind the first colon counts if it begins with the root, even where the text as a whole does so too;
   otherwise it is the whole text that counts. It is the root, a slash and the path.
   */
  lemma NamesMeans(root: ByteString, front: ByteString, tail: ByteString, relative: ByteString)
    requires forall i | 0 <= i < |front| :: front[i] as int as char != ':'
    ensures root <= tail ==>
              (Names(root, front + Ascii(":") + tail, relative) <==>
               tail == root + Ascii("/") + relative && Canonical(relative) && |relative| < 512)
    ensures !(root <= tail) ==>
              (Names(root, front + Ascii(":") + tail, relative) <==>
               front + Ascii(":") + tail == root + Ascii("/") + relative && Canonical(relative) && |relative| < 512)
    ensures Names(root, front, relative) <==>
            front == root + Ascii("/") + relative && Canonical(relative) && |relative| < 512
  {
    hide Canonical, IndexOf;
    assert Ascii("/") == [SLASH] && Ascii(":") == [COLON_BYTE];
    FirstColon(front, tail);
  }

  lemma FirstColon(front: ByteString, rest: ByteString)
    requires COLON_BYTE !in front
    ensures IndexOf(front + [COLON_BYTE] + rest, COLON_BYTE) == |front|
    ensures (front + [COLON_BYTE] + rest)[|front| + 1..] == rest
  {
    var whole := front + [COLON_BYTE] + rest;
    var colon := IndexOf(whole, COLON_BYTE);
    assert whole[|front|] == COLON_BYTE;
  }

  predicate Usable(romRoot: ByteString) {
    romRoot != [] && romRoot[0] == SLASH && BACKSLASH !in romRoot
  }

  method NormalizeRomPath(romRoot: ByteString, input: ByteString) returns (relative: Option<ByteString>)
    ensures relative.Some? ==> Usable(romRoot) && Names(Trimmed(romRoot), input, relative.value)
    ensures relative.None? ==> !Usable(romRoot) || NamesNothing(Trimmed(romRoot), input)
  {
    if !Usable(romRoot) {
      return None;
    }
    hide Canonical, Trimmed, AfterColon;
    var root := Trimmed(romRoot);
    var path := AfterColon(root, input);
    if !(root <= path) || |path| == |root| || path[|root|] != SLASH {
      return None;
    }
    var rest := path[|root| + 1..];
    assert path == root + [SLASH] + rest;
    assert forall r: ByteString | path == root + [SLASH] + r :: r == rest by {
      forall r: ByteString | path == root + [SLASH] + r
        ensures r == rest
      {
        assert r == (root + [SLASH] + r)[|root| + 1..];
      }
    }
    var safe := SafeRelativePath(rest);
    return if safe then Some(rest) else None;
  }

  /** A path that is found is the path under which a scan registers the same file. */
  lemma FoundPathIsNormal(romRoot: ByteString, input: ByteString, relative: ByteString)
    requires Names(Trimmed(romRoot), input, relative)
    ensures NormalPath(ROM_ROOT + relative, TEXT_SIZE) == Ok(relative)
  {
    CanonicalIsFixed(relative, TEXT_SIZE);
  }

  // ----- What a line says -----

  /** The outcome of reading one line and looking its game up. */
  datatype Found = Unreadable | Missing(path: ByteString) | Hit(path: ByteString, game: Game)

  const TYPE_KEY := Ascii("type")
  const ROMPATH_KEY := Ascii("rompath")

  predicate KnownGameType(value: Json) {
    value.Number? && IsInteger(value.number) && ToInt(value.number) in {0, 1, 5, 17}
  }

  ghost predicate UniqueKeys(members: seq<Member>) {
    forall i, j | 0 <= i < j < |members| :: members[i].key != members[j].key
  }

  method ObjectHasUniqueKeys(members: seq<Member>) returns (unique: bool)
    ensures unique <==> UniqueKeys(members)
  {
    var item := 0;
    while item < |members|
      invariant 0 <= item <= |members|
      invariant forall i, j | 0 <= i < item && i < j < |members| :: members[i].key != members[j].key
    {
      var other := item + 1;
      while other < |members|
        invariant item < other <= |members|
        invariant forall j | item < j < other :: members[item].key != members[j].key
      {
        if members[item].key == members[other].key {
          return false;
        }
        other := other + 1;
      }
      item := item + 1;
    }
    return true;
  }

  /** The line holds an object without repeated keys, of a known type, that names this path below the root. */
  ghost predicate Says(root: Option<Json>, romRoot: ByteString, path: ByteString) {
    && root.Some? && root.value.Object? && UniqueKeys(root.value.members)
    && Usable(romRoot)
    && (exists m :: m in root.value.members && m.key == TYPE_KEY && KnownGameType(m.value))
    && (exists m :: m in root.value.members && m.key == ROMPATH_KEY && m.value.String? &&
                    Names(Trimmed(romRoot), m.value.text, path))
  }

  /** The object says so in its member "rompath" and is of type 0, 1, 5 or 17. */
  lemma SaysMeans(members: seq<Member>, romRoot: ByteString, path: ByteString)
    ensures Says(Some(Object(members)), romRoot, path) <==>
            && (forall i, j | 0 <= i < j < |members| :: members[i].key != members[j].key)
            && romRoot != [] && romRoot[0] as int as char == '/'
            && (forall i | 0 <= i < |romRoot| :: romRoot[i] as int as char != 0x5c as char)
            && (exists m :: m in members && m.key == Ascii("type") && m.value.Number? &&
                            m.value.number in {0.0, 1.0, 5.0, 17.0})
            && (exists m :: m in members && m.key == Ascii("rompath") && m.value.String? &&
                            Names(Trimmed(romRoot), m.value.text, path))
    ensures forall root: Json | !root.Object? :: !Says(Some(root), romRoot, path)
    ensures !Says(None, romRoot, path)
  {
    hide Names, Trimmed;
    forall m | m in members && m.value.Number?
      ensures KnownGameType(m.value) <==> m.value.number in {0.0, 1.0, 5.0, 17.0}
    {
      TypeMeans(m.value.number);
    }
  }

  lemma TypeMeans(number: real)
    ensures KnownGameType(Number(number)) <==> number in {0.0, 1.0, 5.0, 17.0}
  {
  }

  ghost predicate SaysNothing(root: Option<Json>, romRoot: ByteString) {
    forall path :: !Says(root, romRoot, path)
  }

  /**
   Where the games are: the root of the paths, and for each path of a game present the game of the row that the
   lookup picks. Systems may share a path.
   */
  datatype Source = Source(romRoot: ByteString, games: map<ByteString, Game>)

  /** What a line says, looked up among the games. */
  ghost function Heard(root: Option<Json>, source: Source): (found: Found)
    ensures found.Unreadable? <==> SaysNothing(root, source.romRoot)
    ensures !found.Unreadable? ==>
              Says(root, source.romRoot, found.path) && (found.Hit? <==> found.path in source.games)
    ensures found.Hit? ==> found.game == source.games[found.path]
  {
    if exists path :: Says(root, source.romRoot, path) then
      var path :| Says(root, source.romRoot, path);
      if path in source.games then Hit(path, source.games[path]) else Missing(path)
    else Unreadable
  }

  /** A line names no two paths. */
  lemma SaysOnce(root: Option<Json>, romRoot: ByteString, a: ByteString, b: ByteString)
    requires Says(root, romRoot, a) && Says(root, romRoot, b)
    ensures a == b
  {
    hide AfterColon, KnownGameType, Canonical;
    var members, front := root.value.members, Trimmed(romRoot) + [SLASH];
    var i :| 0 <= i < |members| && members[i].key == ROMPATH_KEY && members[i].value.String? &&
             Names(Trimmed(romRoot), members[i].value.text, a);
    var j :| 0 <= j < |members| && members[j].key == ROMPATH_KEY && members[j].value.String? &&
             Names(Trimmed(romRoot), members[j].value.text, b);
    assert i == j;
    assert a == (front + a)[|front|..] && b == (front + b)[|front|..];
  }

  /** The tree of a line, if the whole line is one. */
  function Parsed(text: ByteString): Option<Json> {
    match ParseDocument(text + [0], true)
    case None => None
    case Some((root, _)) => Some(root)
  }

  /** A line that is the text of a tree is read as that tree. */
  lemma ParsedMeans(tree: Json, format: bool)
    requires JsonRoundTrip.Printable(tree) && JsonRoundTrip.Nesting(tree) <= 1000
    ensures Parsed(Render(tree, format, 0)) == Some(tree)
  {
    hide ParseDocument, Render, JsonRoundTrip.Printable, JsonRoundTrip.Nesting;
    JsonRoundTrip.DocumentRoundTrip(tree, format, true);
  }

  /** Reads one line, given as the parsed tree if it parses, and looks the game up among those present. */
  method ReadLine(root: Option<Json>, source: Source) returns (found: Found)
    ensures found == Heard(root, source)
  {
    found := Look(root, source);
    hide Says;
    if !found.Unreadable? {
      SaysOnce(root, source.romRoot, found.path, Heard(root, source).path);
    }
  }

  method Look(root: Option<Json>, source: Source) returns (found: Found)
    ensures found.Unreadable? ==> SaysNothing(root, source.romRoot)
    ensures !found.Unreadable? ==> Says(root, source.romRoot, found.path)
    ensures !found.Unreadable? ==> (found.Hit? <==> found.path in source.games)
    ensures found.Hit? ==> found.game == source.games[found.path]
  {
    hide *;
    SaysObject(root, source.romRoot);
    if root.None? || !root.value.Object? {
      return Unreadable;
    }
    var members := root.value.members;
    var unique := ObjectHasUniqueKeys(members);
    if !unique {
      return Unreadable;
    }
    var typeAt := JsonCompare.Find(members, TYPE_KEY, true, 0);
    var pathAt := JsonCompare.Find(members, ROMPATH_KEY, true, 0);
    SaysAt(root, source.romRoot, typeAt, pathAt);
    if typeAt.None? || pathAt.None? {
      return Unreadable;
    }
    var gameType, rompath := members[typeAt.value], members[pathAt.value];
    if !KnownGameType(gameType.value) || !rompath.value.String? {
      return Unreadable;
    }
    var relative := NormalizeRomPath(source.romRoot, rompath.value.text);
    if relative.None? {
      return Unreadable;
    }
    var path := relative.value;
    return if path in source.games then Hit(path, source.games[path]) else Missing(path);
  }

  lemma SaysObject(root: Option<Json>, romRoot: ByteString)
    ensures root.None? || !root.value.Object? || !UniqueKeys(root.value.members) ==> SaysNothing(root, romRoot)
  {
  }

  /** What a line says is in the only members with the two keys. */
  lemma SaysAt(root: Option<Json>, romRoot: ByteString, typeAt: Option<nat>, pathAt: Option<nat>)
    requires root.Some? && root.value.Object? && UniqueKeys(root.value.members)
    requires typeAt == JsonCompare.Find(root.value.members, TYPE_KEY, true, 0)
    requires pathAt == JsonCompare.Find(root.value.members, ROMPATH_KEY, true, 0)
    ensures typeAt.None? || pathAt.None? ==> SaysNothing(root, romRoot)
    ensures typeAt.Some? && pathAt.Some? ==>
              && var members := root.value.members;
              && var gameType, rompath := members[typeAt.value].value, members[pathAt.value].value;
              && var meant := Usable(romRoot) && KnownGameType(gameType) && rompath.String?;
              && (!meant || NamesNothing(Trimmed(romRoot), rompath.text) ==> SaysNothing(root, romRoot))
              && (meant ==> forall path | Names(Trimmed(romRoot), rompath.text, path) :: Says(root, romRoot, path))
  {
    OnlyMember(root.value.members, TYPE_KEY, typeAt);
    OnlyMember(root.value.members, ROMPATH_KEY, pathAt);
    hide JsonCompare.Find, KnownGameType, Names, UniqueKeys, Usable, Trimmed;
  }

  /** A lookup finds the one member with the key. */
  lemma OnlyMember(members: seq<Member>, key: ByteString, at: Option<nat>)
    requires UniqueKeys(members) && at == JsonCompare.Find(members, key, true, 0)
    ensures at.Some? ==> at.value < |members| && members[at.value].key == key && members[at.value] in members
    ensures forall m | m in members && m.key == key :: at.Some? && m == members[at.value]
  {
  }

  // ----- The list -----

  datatype Verdict = Matched | Unmatched | Duplicate | Invalid

  datatype Item = Item(identity: ByteString, game: ByteString, verdict: Verdict)

  const INVALID_PREFIX := Ascii("invalid:")

  function MatchedGames(items: seq<Item>): seq<Game> {
    if items == [] then []
    else
      var before, last := MatchedGames(items[..|items| - 1]), items[|items| - 1];
      if last.verdict == Matched then before + [last.game] else before
  }

  /** Only matched items name a game. */
  ghost predicate WellFormed(items: seq<Item>) {
    forall i | 0 <= i < |items| :: items[i].verdict == Matched <==> items[i].game != []
  }

  /** The place of the first line that hits the game, or -1. */
  function FirstHit(lines: seq<Found>, game: Game): (at: int)
    ensures -1 <= at < |lines|
  {
    if lines == [] then -1
    else FirstHitNext(FirstHit(lines[..|lines| - 1], game), lines[|lines| - 1], game, |lines| - 1)
  }

  function FirstHitNext(before: int, last: Found, game: Game, now: nat): int {
    if before >= 0 then before else if last.Hit? && last.game == game then now else -1
  }

  /** What the list says after these lines: the verdict of each, and each game once, at its first line. */
  ghost predicate Records(items: seq<Item>, lines: seq<Found>) {
    && WellFormed(items) && |items| == |lines| && AllJudged(items, lines)
    && Ranked(MatchedGames(items), g => FirstHit(lines, g))
  }

  ghost predicate AllJudged(items: seq<Item>, lines: seq<Found>)
    requires |items| == |lines|
  {
    forall i | 0 <= i < |items| :: Judged(items[i], lines[i], lines[..i])
  }

  predicate Judged(item: Item, line: Found, before: seq<Found>) {
    match line
    case Unreadable => item.verdict == Invalid && item.identity == Ascii("invalid:") + Decimal(|before|)
    case Missing(path) => item.verdict == Unmatched && item.identity == path
    case Hit(path, game) =>
      && item.identity == path
      && item.verdict == (if FirstHit(before, game) < 0 then Matched else Duplicate)
      && (item.verdict == Matched ==> item.game == game)
  }

  /** Every line has its item: the path it names, or its place among the lines if it names none, and a verdict. */
  lemma {:induction false} ReportMeans(items: seq<Item>, lines: seq<Found>, i: nat)
    requires Records(items, lines) && i < |lines|
    ensures |items| == |lines|
    ensures items[i].identity ==
            if lines[i].Unreadable? then Ascii("invalid:") + Decimal(i) else lines[i].path
    ensures items[i].verdict == Invalid <==> lines[i].Unreadable?
    ensures items[i].verdict == Unmatched <==> lines[i].Missing?
    ensures items[i].verdict == Matched <==> lines[i].Hit? && FirstHit(lines[..i], lines[i].game) == -1
    ensures items[i].game == if items[i].verdict == Matched then lines[i].game else []
  {
    hide FirstHit, MatchedGames, Ranked, Decimal;
    assert Judged(items[i], lines[i], lines[..i]);
  }

  lemma {:induction false} FirstHitMeans(lines: seq<Found>, game: Game, k: nat)
    ensures (k < |lines| && lines[k].Hit? && lines[k].game == game &&
             forall j | 0 <= j < k :: !(lines[j].Hit? && lines[j].game == game)) ==> FirstHit(lines, game) == k
    ensures (forall j | 0 <= j < |lines| :: !(lines[j].Hit? && lines[j].game == game)) ==> FirstHit(lines, game) == -1
  {
    if lines != [] {
      var before := lines[..|lines| - 1];
      FirstHitMeans(before, game, k);
      assert forall j | 0 <= j < |before| :: before[j] == lines[j];
    }
  }

  class LegacyList {
    var items: seq<Item>

    constructor ()
      ensures items == []
    {
      items := [];
    }

    method DuplicateGame(game: Game) returns (duplicate: bool)
      requires game != [] && WellFormed(items)
      ensures duplicate <==> game in MatchedGames(items)
    {
      var index := 0;
      while index < |items|
        invariant 0 <= index <= |items| && game !in MatchedGames(items[..index])
      {
        assert items[..index + 1][..index] == items[..index];
        if items[index].game != [] && items[index].game == game {
          MatchedMember(items, index);
          return true;
        }
        index := index + 1;
      }
      assert items[..index] == items;
      return false;
    }

    /** Parses and reads one line and adds its item. */
    method ParseLine(text: ByteString, source: Source, ghost lines: seq<Found>)
      requires Records(items, lines) && forall path | path in source.games :: source.games[path] != []
      modifies this
      ensures Records(items, lines + [Heard(Parsed(text), source)]) && |items| == old(|items|) + 1
    {
      hide *;
      var found := ReadLine(Parsed(text), source);
      AddItem(found, lines);
    }

    method AddItem(found: Found, ghost lines: seq<Found>)
      requires Records(items, lines) && (found.Hit? ==> found.game != [])
      modifies this
      ensures Records(items, lines + [found]) && |items| == old(|items|) + 1
    {
      var item := Item(INVALID_PREFIX + Decimal(|items|), [], Invalid);
      match found {
        case Unreadable =>
        case Missing(path) => item := Item(path, [], Unmatched);
        case Hit(path, game) =>
          var duplicate := DuplicateGame(game);
          item := if duplicate then Item(path, [], Duplicate) else Item(path, game, Matched);
      }
      RecordsNext(items, lines, item, found);
      items := items + [item];
    }
  }

  lemma {:induction false} MatchedMember(items: seq<Item>, index: nat)
    requires index < |items| && items[index].verdict == Matched
    ensures items[index].game in MatchedGames(items)
  {
    if index < |items| - 1 {
      MatchedMember(items[..|items| - 1], index);
    }
  }

  lemma RecordsNext(items: seq<Item>, lines: seq<Found>, item: Item, found: Found)
    requires Records(items, lines)
    requires match found
             case Unreadable => item == Item(Ascii("invalid:") + Decimal(|lines|), [], Invalid)
             case Missing(path) => item == Item(path, [], Unmatched)
             case Hit(path, game) =>
               game != [] && item == if game in MatchedGames(items) then Item(path, [], Duplicate)
                   else Item(path, game, Matched)
    ensures Records(items + [item], lines + [found])
  {
    hide *;
    RecordsParts(items, lines);
    MatchedNext(items, item);
    forall g
      ensures FirstHit(lines + [found], g) == FirstHitNext(FirstHit(lines, g), found, g, |lines|)
      ensures FirstHit(lines, g) < |lines|
    {
      FirstHitMore(lines, found, g);
    }
    HitsRanked(MatchedGames(items), g => FirstHit(lines, g), g => FirstHit(lines + [found], g), found, |lines|);
    JudgedNow(items, lines, item, found);
    JudgedNext(items, lines, item, found);
    RecordsParts(items + [item], lines + [found]);
  }

  /** The parts of which Records consists. */
  lemma {:induction false} RecordsParts(items: seq<Item>, lines: seq<Found>)
    ensures Records(items, lines) <==>
            WellFormed(items) && |items| == |lines| && AllJudged(items, lines) &&
            Ranked(MatchedGames(items), g => FirstHit(lines, g))
  {
    hide MatchedGames, FirstHit, Judged, Ranked, WellFormed;
  }

  lemma {:induction false} MatchedNext(items: seq<Item>, item: Item)
    requires WellFormed(items) && (item.verdict == Matched <==> item.game != [])
    ensures WellFormed(items + [item])
    ensures MatchedGames(items + [item]) ==
            if item.verdict == Matched then MatchedGames(items) + [item.game] else MatchedGames(items)
  {
    assert (items + [item])[..|items|] == items;
  }

  lemma {:induction false} FirstHitMore(lines: seq<Found>, found: Found, game: Game)
    ensures FirstHit(lines + [found], game) == FirstHitNext(FirstHit(lines, game), found, game, |lines|)
  {
    assert (lines + [found])[..|lines|] == lines;
    hide FirstHitNext;
  }

  lemma {:induction false} JudgedNow(items: seq<Item>, lines: seq<Found>, item: Item, found: Found)
    requires Ranked(MatchedGames(items), g => FirstHit(lines, g))
    requires match found
             case Unreadable => item.verdict == Invalid && item.identity == Ascii("invalid:") + Decimal(|lines|)
             case Missing(path) => item == Item(path, [], Unmatched)
             case Hit(path, game) =>
               item == if game in MatchedGames(items) then Item(path, [], Duplicate) else Item(path, game, Matched)
    ensures Judged(item, found, lines)
  {
    hide MatchedGames, FirstHit;
  }

  lemma {:induction false} JudgedNext(items: seq<Item>, lines: seq<Found>, item: Item, found: Found)
    requires |items| == |lines| && AllJudged(items, lines) && Judged(item, found, lines)
    ensures AllJudged(items + [item], lines + [found])
  {
    hide Judged;
    var longer, more := items + [item], lines + [found];
    assert more[..|lines|] == lines;
    forall i | 0 <= i < |longer|
      ensures Judged(longer[i], more[i], more[..i])
    {
      assert i < |items| ==> more[..i] == lines[..i];
    }
  }

  lemma HitsRanked(games: seq<Game>, before: Game -> int, rank: Game -> int, found: Found, now: nat)
    requires Ranked(games, before) && forall g :: before(g) < now
    requires forall g :: rank(g) == FirstHitNext(before(g), found, g, now)
    ensures Ranked(if found.Hit? && found.game !in games then games + [found.game] else games, rank)
  {
    IncreasingKept(games, before, rank);
    if found.Hit? && found.game !in games {
      forall i | 0 <= i < |games|
        ensures rank(games[i]) < rank(found.game)
      {
        assert games[i] in games;
      }
    }
  }

  // ----- Reading the file -----

  /** A line of the file: empty, too long, one whose lookup fails, or a text. */
  datatype Line = Blank | Overlong | Broken | Entry(text: ByteString)

  /** What the lines with content say, if all of them can be read and there is room for them. */
  ghost function Readable(lines: seq<Line>, source: Source): Option<seq<Found>> {
    if lines == [] then Some([])
    else
      match Readable(lines[..|lines| - 1], source)
      case None => None
      case Some(found) =>
        if |found| >= MAX_ITEMS then None
        else
          match lines[|lines| - 1]
          case Blank => Some(found)
          case Overlong => None
          case Broken => None
          case Entry(text) => Some(found + [Heard(Parsed(text), source)])
  }

  function Entries(lines: seq<Line>): nat {
    if lines == [] then 0
    else Entries(lines[..|lines| - 1]) + if lines[|lines| - 1].Entry? then 1 else 0
  }

  lemma NoEntries(lines: seq<Line>)
    requires lines == []
    ensures Entries(lines) == 0
  {
  }

  lemma {:induction false} LineNext(lines: seq<Line>, source: Source)
    requires lines != []
    ensures var before, last := Readable(lines[..|lines| - 1], source), lines[|lines| - 1];
            && (Readable(lines, source).Some? <==>
                before.Some? && |before.value| < 2048 && last != Overlong && last != Broken)
            && (Readable(lines, source).Some? ==>
                  |Readable(lines, source).value| == |before.value| + if last.Entry? then 1 else 0)
            && Entries(lines) == Entries(lines[..|lines| - 1]) + if last.Entry? then 1 else 0
  {
    hide Heard, Parsed;
  }

  /**
   A list is read when no line is overlong, no lookup fails, and 2048 entries come to stand in front of no line, not
   even of an empty one.
   */
  lemma {:induction false} ReadableMeans(lines: seq<Line>, source: Source)
    ensures Readable(lines, source).Some? <==>
            forall k | 0 <= k < |lines| :: lines[k] != Overlong && lines[k] != Broken && Entries(lines[..k]) < 2048
    ensures Readable(lines, source).Some? ==> |Readable(lines, source).value| == Entries(lines)
  {
    hide Heard, Parsed, Readable, Entries;
    if lines == [] {
      NothingRead(lines, source);
      NoEntries(lines);
      assert lines[..0] == lines;
    } else {
      var before := lines[..|lines| - 1];
      ReadableMeans(before, source);
      LineNext(lines, source);
      assert forall k | 0 <= k < |before| :: before[k] == lines[k] && before[..k] == lines[..k];
    }
  }

  /** Each entry is heard in its turn. */
  lemma {:induction false} HeardInTurn(lines: seq<Line>, source: Source, k: nat)
    requires Readable(lines, source).Some? && k < |lines| && lines[k].Entry?
    ensures Entries(lines[..k]) < |Readable(lines, source).value|
    ensures Readable(lines, source).value[Entries(lines[..k])] == Heard(Parsed(lines[k].text), source)
  {
    hide Heard, Parsed, Entries;
    var before := lines[..|lines| - 1];
    assert before[..k] == lines[..k];
    if k < |before| {
      HeardInTurn(before, source, k);
    } else {
      ReadableMeans(before, source);
    }
  }

  lemma {:induction false} ReadableBefore(lines: seq<Line>, source: Source, k: nat)
    requires k <= |lines| && Readable(lines[..k], source).None?
    ensures Readable(lines, source).None?
  {
    if k < |lines| {
      assert lines[..|lines| - 1][..k] == lines[..k];
      ReadableBefore(lines[..|lines| - 1], source, k);
    } else {
      assert lines[..k] == lines;
    }
  }

  method LoadList(lines: seq<Line>, source: Source, list: LegacyList) returns (ok: bool)
    requires list.items == [] && forall path | path in source.games :: source.games[path] != []
    modifies list
    ensures ok <==> Readable(lines, source).Some?
    ensures ok ==> Records(list.items, Readable(lines, source).value)
  {
    var at := 0;
    NothingRead(lines, source);
    hide *;
    while at < |lines|
      invariant 0 <= at <= |lines|
      invariant Readable(lines[..at], source).Some? && Records(list.items, Readable(lines[..at], source).value)
      invariant |list.items| == |Readable(lines[..at], source).value|
    {
      ReadableNext(lines, source, at);
      var line := lines[at];
      if |list.items| >= MAX_ITEMS || line.Overlong? || line.Broken? {
        ReadableBefore(lines, source, at + 1);
        return false;
      }
      if line.Entry? {
        list.ParseLine(line.text, source, Readable(lines[..at], source).value);
      }
      at := at + 1;
    }
    assert lines[..at] == lines;
    return true;
  }

  lemma {:induction false} NothingRead(lines: seq<Line>, source: Source)
    ensures Readable(lines[..0], source) == Some([]) && Records([], [])
  {
  }

  lemma {:induction false} ReadableNext(lines: seq<Line>, source: Source, at: nat)
    requires at < |lines| && Readable(lines[..at], source).Some?
    ensures var found, line, next := Readable(lines[..at], source).value, lines[at], Readable(lines[..at + 1], source);
            if |found| >= MAX_ITEMS || line.Overlong? || line.Broken? then next.None?
            else next == Some(if line.Entry? then found + [Heard(Parsed(line.text), source)] else found)
  {
    hide Heard;
    assert lines[..at + 1][..at] == lines[..at];
  }

  // ----- Publishing -----

  datatype Counts = Counts(matched: nat, unmatched: nat, duplicates: nat, invalid: nat) {
    function Sum(): nat {
      matched + unmatched + duplicates + invalid
    }
  }

  function Counted(counts: Counts, verdict: Verdict): Counts {
    match verdict
    case Matched => counts.(matched := counts.matched + 1)
    case Unmatched => counts.(unmatched := counts.unmatched + 1)
    case Duplicate => counts.(duplicates := counts.duplicates + 1)
    case Invalid => counts.(invalid := counts.invalid + 1)
  }

  function CountAll(counts: Counts, items: seq<Item>): (total: Counts)
    ensures total.Sum() == counts.Sum() + |items|
  {
    if items == [] then counts
    else Counted(CountAll(counts, items[..|items| - 1]), items[|items| - 1].verdict)
  }

  /** How often there is this verdict. */
  function Times(items: seq<Item>, verdict: Verdict): nat {
    if items == [] then 0
    else Times(items[..|items| - 1], verdict) + if items[|items| - 1].verdict == verdict then 1 else 0
  }

  /** Each verdict is counted in its own place. */
  lemma {:induction false} CountsMean(counts: Counts, items: seq<Item>)
    ensures CountAll(counts, items).matched == counts.matched + Times(items, Matched)
    ensures CountAll(counts, items).unmatched == counts.unmatched + Times(items, Unmatched)
    ensures CountAll(counts, items).duplicates == counts.duplicates + Times(items, Duplicate)
    ensures CountAll(counts, items).invalid == counts.invalid + Times(items, Invalid)
  {
    if items != [] {
      CountsMean(counts, items[..|items| - 1]);
    }
  }

  lemma {:induction false} MatchedIsMatchedGames(counts: Counts, items: seq<Item>)
    ensures CountAll(counts, items).matched == counts.matched + |MatchedGames(items)|
  {
    if items != [] {
      MatchedIsMatchedGames(counts, items[..|items| - 1]);
    }
  }

  datatype Outcome = Published(counts: Counts) | Rejected | Failed | Collided

  /** Empties the tables, reports every item in its place and numbers the matched games in order. */
  method PublishList(items: seq<Item>, start: Counts) returns (outcome: Outcome, rows: Rows, report: seq<Item>)
    requires Distinct(MatchedGames(items))
    ensures outcome.Published? || outcome.Failed?
    ensures outcome.Published? ==>
              && Numbers(rows, MatchedGames(items)) && report == items && outcome.counts == CountAll(start, items)
              && outcome.counts.Sum() == start.Sum() + |items|
              && outcome.counts.matched == start.matched + |MatchedGames(items)|
  {
    rows, report := map[], [];
    var counts := start;
    var canonicalPosition := 0;
    var index := 0;
    while index < |items|
      invariant 0 <= index <= |items| && counts == CountAll(start, items[..index])
      invariant report == items[..index]
      invariant Numbers(rows, MatchedGames(items[..index])) && canonicalPosition == |MatchedGames(items[..index])|
    {
      assert items[..index + 1][..index] == items[..index];
      var granted: bool := *;
      if !granted {
        return Failed, rows, report;
      }
      var item := items[index];
      report := report + [item];
      if item.verdict == Matched {
        NextMatched(items, rows, index, canonicalPosition);
        if item.game in rows || canonicalPosition in rows.Values {
          return Collided, rows, report;
        }
        rows := rows[item.game := canonicalPosition];
        canonicalPosition := canonicalPosition + 1;
      }
      counts := Counted(counts, item.verdict);
      index := index + 1;
    }
    assert items[..index] == items;
    MatchedIsMatchedGames(start, items);
    return Published(counts), rows, report;
  }

  lemma {:induction false} MatchedGamesPrefix(items: seq<Item>, k: nat)
    requires k <= |items|
    ensures MatchedGames(items[..k]) <= MatchedGames(items)
  {
    if k == |items| {
      assert items[..k] == items;
    } else {
      assert items[..|items| - 1][..k] == items[..k];
      MatchedGamesPrefix(items[..|items| - 1], k);
    }
  }

  lemma NextMatched(items: seq<Item>, rows: Rows, index: nat, position: nat)
    requires Distinct(MatchedGames(items)) && index < |items| && items[index].verdict == Matched
    requires Numbers(rows, MatchedGames(items[..index])) && position == |MatchedGames(items[..index])|
    ensures items[index].game !in rows && position !in rows.Values
    ensures Numbers(rows[items[index].game := position], MatchedGames(items[..index + 1]))
  {
    var before, after, game := MatchedGames(items[..index]), MatchedGames(items[..index + 1]), items[index].game;
    assert items[..index + 1][..index] == items[..index];
    assert after == before + [game];
    MatchedGamesPrefix(items, index + 1);
    assert forall i | 0 <= i < |after| :: MatchedGames(items)[i] == after[i];
    hide MatchedGames;
    assert Distinct(after);
    NumberNext(rows, before, game);
  }

  lemma NumberNext(rows: Rows, list: seq<Game>, game: Game)
    requires Numbers(rows, list) && Distinct(list + [game])
    ensures game !in rows && |list| !in rows.Values
    ensures Numbers(rows[game := |list|], list + [game])
  {
    var longer, more := list + [game], rows[game := |list|];
    forall i | 0 <= i < |list|
      ensures list[i] != game && longer[i] == list[i]
    {
      assert longer[i] != longer[|list|];
    }
    forall g | g in rows
      ensures 0 <= rows[g] < |list|
    {
      var i :| 0 <= i < |list| && list[i] == g;
    }
  }

  /** Both lists are replaced together: numbered 0, 1, 2, ... by first occurrence, every line counted once. */
  method ImportLegacy(library: Library, source: Source, favorites: seq<Line>, recents: seq<Line>)
    returns (outcome: Outcome, favoriteReport: seq<Item>, recentReport: seq<Item>)
    requires library.Valid() && forall path | path in source.games :: source.games[path] != []
    modifies library
    ensures library.Valid() && library.present == old(library.present)
    ensures outcome.Rejected? <==> Readable(favorites, source).None? || Readable(recents, source).None?
    ensures !outcome.Collided?
    ensures outcome.Published? ==>
              && outcome.counts.Sum() == |Readable(favorites, source).value| + |Readable(recents, source).value|
              && outcome.counts.matched == |library.order| + |library.imported|
              && Ranked(library.order, g => FirstHit(Readable(favorites, source).value, g))
              && Ranked(library.imported, g => FirstHit(Readable(recents, source).value, g)) && library.recorded == []
    ensures outcome.Published? ==>
              outcome.counts == CountAll(CountAll(Counts(0, 0, 0, 0), favoriteReport), recentReport)
    ensures outcome.Published? ==>
              && Records(favoriteReport, Readable(favorites, source).value)
              && Records(recentReport, Readable(recents, source).value)
    ensures !outcome.Published? ==>
              library.favorites == old(library.favorites) && library.recents == old(library.recents) &&
              library.order == old(library.order) && library.imported == old(library.imported) &&
              library.recorded == old(library.recorded)
  {
    hide *;
    favoriteReport, recentReport := [], [];
    var favoriteList := new LegacyList();
    var recentList := new LegacyList();
    var ok := LoadList(favorites, source, favoriteList);
    if !ok {
      return Rejected, [], [];
    }
    ok := LoadList(recents, source, recentList);
    if !ok {
      return Rejected, [], [];
    }
    RecordsRanked(favoriteList.items, Readable(favorites, source).value);
    RecordsRanked(recentList.items, Readable(recents, source).value);
    var favoriteRows, recentRows;
    outcome, favoriteRows, recentRows, favoriteReport, recentReport :=
        PublishBoth(favoriteList.items, recentList.items);
    if outcome.Published? {
      SwitchedValid(favoriteRows, recentRows, MatchedGames(favoriteList.items), MatchedGames(recentList.items));
      library.favorites, library.recents := favoriteRows, recentRows;
      library.order, library.imported, library.recorded :=
          MatchedGames(favoriteList.items), MatchedGames(recentList.items), [];
      NowValid(library);
    }
  }

  /** What runs inside the transaction. */
  method PublishBoth(favorites: seq<Item>, recents: seq<Item>)
    returns (outcome: Outcome, favoriteRows: Rows, recentRows: Rows, favoriteReport: seq<Item>, recentReport: seq<Item>)
    requires Distinct(MatchedGames(favorites)) && Distinct(MatchedGames(recents))
    ensures outcome.Published? || outcome.Failed?
    ensures outcome.Published? ==>
              && Numbers(favoriteRows, MatchedGames(favorites)) && Numbers(recentRows, MatchedGames(recents))
              && favoriteReport == favorites && recentReport == recents
              && outcome.counts == CountAll(CountAll(Counts(0, 0, 0, 0), favorites), recents)
              && outcome.counts.Sum() == |favorites| + |recents|
              && outcome.counts.matched == |MatchedGames(favorites)| + |MatchedGames(recents)|
  {
    hide *;
    recentRows, recentReport := map[], [];
    var none := Counts(0, 0, 0, 0);
    NoneSum();
    var first, second;
    first, favoriteRows, favoriteReport := PublishList(favorites, none);
    if !first.Published? {
      return Failed, favoriteRows, recentRows, favoriteReport, recentReport;
    }
    second, recentRows, recentReport := PublishList(recents, first.counts);
    var committed: bool := *;
    return if committed then second else Failed, favoriteRows, recentRows, favoriteReport, recentReport;
  }

  lemma NoneSum()
    ensures Counts(0, 0, 0, 0).Sum() == 0
  {
  }

  lemma RecordsRanked(items: seq<Item>, lines: seq<Found>)
    requires Records(items, lines)
    ensures |items| == |lines| && Ranked(MatchedGames(items), g => FirstHit(lines, g)) && Distinct(MatchedGames(items))
  {
    IncreasingDistinct(MatchedGames(items), g => FirstHit(lines, g));
  }

  lemma SwitchedValid(favorites: Rows, recents: Rows, order: seq<Game>, imported: seq<Game>)
    requires Numbers(favorites, order) && Numbers(recents, imported)
    ensures Numbers(favorites, order) && Shows(recents, imported, [])
  {
    ImportedShows(recents, imported);
  }

  lemma NowValid(library: Library)
    requires Numbers(library.favorites, library.order) && Shows(library.recents, library.imported, library.recorded)
    ensures library.Valid()
  {
  }

  lemma ImportedShows(rows: Rows, list: seq<Game>)
    requires Numbers(rows, list)
    ensures Shows(rows, list, [])
  {
    forall i | 0 <= i < |list|
      ensures Index(list, list[i]) == i
    {
    }
    forall g | g in rows
      ensures rows[g] == Index(list, g)
    {
      var i :| 0 <= i < |list| && list[i] == g;
    }
  }
}
