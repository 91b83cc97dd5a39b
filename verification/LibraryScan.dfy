/** Scanning the ROM directories: every eligible file is upserted, then the games not seen are swept out. */
module LibraryScan {
  import opened Bytes
  import opened Wrappers
  import opened GameId
  import JsonCompare
  import Sha256
  import opened LibraryQuery
  import opened RelativePaths

  const PATH_MAX: nat := 4096
  const MAX_SCAN_DEPTH: nat := 16
  const MAX_SYSTEMS: nat := 128
  const DOT_BYTE: Byte := 0x2e
  const BAR: Byte := 0x7c

  const PNG_SUFFIX: ByteString := Ascii(".png")

  /** What lstat says about a name, with the contents of a directory in the order they are read. */
  datatype Entry = File(size: int, mtime: int) | Dir(children: seq<Named>) | Link | Other

  datatype Named = Named(name: ByteString, entry: Entry)

  datatype System = System(id: ByteString, romPath: ByteString, imagePath: ByteString, extensions: ByteString)

  /** A file that counts as a game. */
  datatype GameFile = GameFile(path: ByteString, name: ByteString, size: int, mtime: int)

  /** The image files there are, as paths below the ROM root, and the length of the root's own path. */
  datatype Disk = Disk(rootLength: nat, images: set<ByteString>)

  // ----- Names -----

  /** The place of the last dot, or the length. */
  function LastDot(name: ByteString): (at: nat)
    ensures at <= |name| && (at < |name| ==> name[at] == DOT_BYTE) && forall k | at < k < |name| :: name[k] != DOT_BYTE
    ensures at == |name| ==> DOT_BYTE !in name
  {
    if name == [] then 0
    else if name[|name| - 1] == DOT_BYTE then |name| - 1
    else
      var at := LastDot(name[..|name| - 1]);
      if at == |name| - 1 then |name| else at
  }

  function Tokens(list: ByteString): (tokens: seq<ByteString>)
    ensures tokens != []
  {
    if list == [] then [[]]
    else
      var rest := Tokens(list[1..]);
      if list[0] == BAR then [[]] + rest else [[list[0]] + rest[0]] + rest[1..]
  }

  /** The text behind the last dot is one of the extensions, upper and lower case being the same. */
  ghost predicate Supported(name: ByteString, extensions: ByteString) {
    var dot := LastDot(name);
    dot + 1 < |name| && Offered(Tokens(extensions), name[dot + 1..])
  }

  ghost predicate Offered(tokens: seq<ByteString>, wanted: ByteString) {
    exists token :: token in tokens && JsonCompare.Lower(token) == JsonCompare.Lower(wanted)
  }

  method ExtensionSupported(name: ByteString, extensions: ByteString) returns (supported: bool)
    ensures supported <==> Supported(name, extensions)
  {
    hide *;
    SupportedIs(name, extensions);
    var dot := LastDot(name);
    if dot + 1 >= |name| {
      return false;
    }
    var wanted := name[dot + 1..];
    var cursor := 0;
    TokensFromEnds(extensions);
    NothingOffered(wanted);
    while cursor < |extensions|
      invariant cursor <= |extensions|
      invariant Supported(name, extensions) <==> Offered(TokensFrom(extensions, cursor), wanted)
      decreases |extensions| - cursor
    {
      var separator, token := NextToken(extensions, cursor);
      OfferedNext(token, Behind(extensions, separator), wanted);
      BehindBar(extensions, separator);
      if JsonCompare.Lower(token) == JsonCompare.Lower(wanted) {
        return true;
      }
      if separator == |extensions| {
        return false;
      }
      cursor := separator + 1;
    }
    return false;
  }

  lemma {:induction false} SupportedIs(name: ByteString, extensions: ByteString)
    ensures var dot := LastDot(name);
            Supported(name, extensions) <==>
            dot + 1 < |name| && Offered(TokensFrom(extensions, 0), name[dot + 1..])
  {
    hide Offered, LastDot;
    TokensFromEnds(extensions);
  }

  lemma {:induction false} OfferedNext(token: ByteString, rest: seq<ByteString>, wanted: ByteString)
    ensures Offered([token] + rest, wanted) <==>
              JsonCompare.Lower(token) == JsonCompare.Lower(wanted) || Offered(rest, wanted)
    ensures !Offered([], wanted)
  {
    hide JsonCompare.Lower;
    assert token in [token] + rest;
    assert forall t :: t in [token] + rest <==> t == token || t in rest;
  }

  lemma {:induction false} NothingOffered(wanted: ByteString)
    requires wanted != []
    ensures !Offered([[]], wanted)
  {
    assert |JsonCompare.Lower([])| == 0 && |JsonCompare.Lower(wanted)| > 0;
  }

  /** Reads up to the next bar. */
  method NextToken(list: ByteString, cursor: nat) returns (separator: nat, token: ByteString)
    requires cursor < |list|
    ensures cursor <= separator <= |list| && TokensFrom(list, cursor) == [token] + Behind(list, separator)
  {
    hide *;
    separator := cursor;
    while separator < |list| && list[separator] != BAR
      invariant cursor <= separator <= |list| && BAR !in list[cursor..separator]
    {
      separator := separator + 1;
    }
    token := list[cursor..separator];
    TokenAt(list, cursor, separator);
  }

  /** The tokens behind a bar, or none at the end. */
  function Behind(list: ByteString, separator: nat): seq<ByteString>
    requires separator <= |list|
  {
    if separator < |list| then TokensFrom(list, separator + 1) else []
  }

  function TokensFrom(list: ByteString, cursor: nat): seq<ByteString>
    requires cursor <= |list|
  {
    Tokens(list[cursor..])
  }

  lemma {:induction false} TokensFromEnds(list: ByteString)
    ensures TokensFrom(list, 0) == Tokens(list) && TokensFrom(list, |list|) == [[]]
  {
    assert list[0..] == list && list[|list|..] == [];
  }

  lemma {:induction false} BehindBar(list: ByteString, separator: nat)
    requires separator <= |list|
    ensures Behind(list, separator) == if separator < |list| then TokensFrom(list, separator + 1) else []
  {
  }

  lemma {:induction false} TokenAt(list: ByteString, cursor: nat, separator: nat)
    requires cursor <= separator <= |list| && BAR !in list[cursor..separator]
    requires separator < |list| ==> list[separator] == BAR
    ensures TokensFrom(list, cursor) == [list[cursor..separator]] + Behind(list, separator)
  {
    hide Tokens;
    var token := list[cursor..separator];
    FirstToken(list[cursor..], token);
    assert separator < |list| ==> list[cursor..][|token| + 1..] == list[separator + 1..];
  }

  lemma {:induction false} FirstToken(list: ByteString, token: ByteString)
    requires token <= list && BAR !in token && (|token| < |list| ==> list[|token|] == BAR)
    ensures Tokens(list) == [token] + if |token| < |list| then Tokens(list[|token| + 1..]) else []
  {
    if token == [] {
      assert list == [] || Tokens(list) == [[]] + Tokens(list[1..]);
    } else {
      assert token[0] in token && list[0] == token[0];
      FirstToken(list[1..], token[1..]);
      assert |token| < |list| ==> list[1..][|token|..] == list[|token| + 1..];
      var tail := Tokens(list[1..]);
      assert [token[0]] + token[1..] == token;
      assert tail[0] == token[1..];
    }
  }

  function DisplayTitle(name: ByteString): ByteString {
    var dot := LastDot(name);
    var title := if 0 < dot < |name| then name[..dot] else name;
    if |title| >= TEXT_SIZE then title[..TEXT_SIZE - 1] else title
  }

  function SortTitle(name: ByteString): ByteString {
    JsonCompare.Lower(DisplayTitle(name))
  }

  method GameTitles(name: ByteString) returns (display: ByteString, sort: ByteString)
    ensures display == DisplayTitle(name) && sort == SortTitle(name)
  {
    var length := |name|;
    var dot := LastDot(name);
    if dot < |name| && dot != 0 {
      length := dot;
    }
    if length >= TEXT_SIZE {
      length := TEXT_SIZE - 1;
    }
    display := name[..length];
    sort := [];
    var index := 0;
    while index < length
      invariant 0 <= index <= length
      invariant sort == JsonCompare.Lower(display)[..index]
    {
      var byte := display[index];
      ghost var lower := JsonCompare.Lower(display);
      assert lower[..index + 1] == lower[..index] + [lower[index]];
      sort := sort + [if 0x41 <= byte <= 0x5a then byte + 32 else byte];
      index := index + 1;
    }
  }

  // ----- The files found -----

  function Joined(directory: ByteString, name: ByteString): ByteString {
    directory + [SLASH] + name
  }

  /** Too long once the name is appended to the absolute path. */
  predicate TooLongName(disk: Disk, relative: ByteString, name: ByteString) {
    disk.rootLength + 1 + |relative| + 1 + |name| >= PATH_MAX
  }

  const IMGS: ByteString := Ascii("Imgs")
  const IMAGES: ByteString := Ascii("images")
  const SNAPS: ByteString := Ascii("Snaps")

  /** Directories that hold pictures. */
  predicate Ignored(name: ByteString) {
    name == IMGS || name == IMAGES || name == SNAPS
  }

  /** The game files below a directory, in the order they are read. */
  ghost function Files(s: System, disk: Disk, relative: ByteString, dir: Entry, n: nat): seq<GameFile>
    requires dir.Dir? && n <= |dir.children|
    decreases dir, 0, n
  {
    if n == 0 then []
    else
      Files(s, disk, relative, dir, n - 1) +
      ChildFiles(s, disk, relative, dir.children[n - 1].name, dir.children[n - 1].entry)
  }

  ghost function Below(s: System, disk: Disk, relative: ByteString, entry: Entry): seq<GameFile>
    decreases entry, 1
  {
    if entry.Dir? then Files(s, disk, relative, entry, |entry.children|) else []
  }

  ghost function ChildFiles(s: System, disk: Disk, relative: ByteString, name: ByteString, entry: Entry): seq<GameFile>
    decreases entry, 2
  {
    if (name != [] && name[0] == DOT_BYTE) || TooLongName(disk, relative, name) then []
    else
      match entry
      case Link => []
      case Other => []
      case File(size, mtime) =>
        if Supported(name, s.extensions) then [GameFile(Joined(relative, name), name, size, mtime)] else []
      case Dir(children) =>
        if Ignored(name) then [] else Below(s, disk, Joined(relative, name), entry)
  }

  /** Some directory that has to be entered lies deeper than the limit. */
  ghost predicate TooDeep(disk: Disk, relative: ByteString, dir: Entry, depth: nat)
    requires dir.Dir?
    decreases dir
  {
    depth > MAX_SCAN_DEPTH || exists i :: 0 <= i < |dir.children| && DeepChild(disk, relative, dir.children[i], depth)
  }

  ghost predicate DeepChild(disk: Disk, relative: ByteString, child: Named, depth: nat)
    decreases child
  {
    && !(child.name != [] && child.name[0] == DOT_BYTE) && !TooLongName(disk, relative, child.name)
    && child.entry.Dir? && !Ignored(child.name) && TooDeep(disk, Joined(relative, child.name), child.entry, depth + 1)
  }

  /** The row of the file can be written: its path fits, has only safe segments and so is the game's own. */
  ghost predicate Storable(s: System, path: ByteString) {
    |ROM_ROOT| + |path| < PATH_MAX && ValidSystem(s.id) && Canonical(path)
  }

  ghost predicate AllStorable(s: System, files: seq<GameFile>) {
    forall i | 0 <= i < |files| :: Storable(s, files[i].path)
  }

  /** Nothing in the directory makes a scan fail: it is not too deep, and every game file can be stored. */
  ghost predicate Scannable(s: System, disk: Disk, relative: ByteString, dir: Entry, depth: nat)
    requires dir.Dir?
  {
    !TooDeep(disk, relative, dir, depth) && AllStorable(s, Below(s, disk, relative, dir))
  }

  ghost predicate ChildScannable(s: System, disk: Disk, relative: ByteString, child: Named, depth: nat) {
    && !DeepChild(disk, relative, child, depth)
    && AllStorable(s, ChildFiles(s, disk, relative, child.name, child.entry))
  }

  lemma {:induction false} AllStorableJoin(s: System, a: seq<GameFile>, b: seq<GameFile>)
    ensures AllStorable(s, a + b) <==> AllStorable(s, a) && AllStorable(s, b)
  {
    hide Storable;
    var files := a + b;
    assert forall i | 0 <= i < |a| :: files[i] == a[i];
    assert forall i | 0 <= i < |b| :: files[|a| + i] == b[i];
  }

  lemma {:induction false} FilesStorable(s: System, disk: Disk, relative: ByteString, dir: Entry, n: nat)
    requires dir.Dir? && n <= |dir.children|
    ensures AllStorable(s, Files(s, disk, relative, dir, n)) <==>
            forall i | 0 <= i < n ::
              AllStorable(s, ChildFiles(s, disk, relative, dir.children[i].name, dir.children[i].entry))
  {
    hide AllStorable, ChildFiles;
    if n > 0 {
      FilesStorable(s, disk, relative, dir, n - 1);
      var child := dir.children[n - 1];
      AllStorableJoin(s, Files(s, disk, relative, dir, n - 1),
                      ChildFiles(s, disk, relative, child.name, child.entry));
    } else {
      NoneStorable(s);
    }
  }

  lemma NoneStorable(s: System)
    ensures AllStorable(s, [])
  {
  }

  /** A directory is scannable exactly when it is not too deep itself and everything in it is scannable. */
  lemma {:induction false} ScannableChildren(s: System, disk: Disk, relative: ByteString, dir: Entry, depth: nat)
    requires dir.Dir?
    ensures Scannable(s, disk, relative, dir, depth) <==>
            && depth <= 16
            && forall i | 0 <= i < |dir.children| :: ChildScannable(s, disk, relative, dir.children[i], depth)
  {
    hide AllStorable, ChildFiles, DeepChild, Files;
    FilesStorable(s, disk, relative, dir, |dir.children|);
  }

  lemma {:induction false} DirectoryScannable(s: System, disk: Disk, relative: ByteString, child: Named, depth: nat)
    requires child.entry.Dir? && !Ignored(child.name)
    requires !(child.name != [] && child.name[0] == DOT_BYTE) && !TooLongName(disk, relative, child.name)
    ensures ChildScannable(s, disk, relative, child, depth) <==>
            Scannable(s, disk, Joined(relative, child.name), child.entry, depth + 1)
  {
    hide AllStorable, TooDeep, Below, Joined;
  }

  lemma {:induction false} FileScannable(s: System, disk: Disk, relative: ByteString, child: Named, depth: nat)
    requires child.entry.File? && Supported(child.name, s.extensions)
    requires !(child.name != [] && child.name[0] == DOT_BYTE) && !TooLongName(disk, relative, child.name)
    ensures ChildScannable(s, disk, relative, child, depth) <==> Storable(s, Joined(relative, child.name))
  {
    hide Supported, Storable, Joined;
    var files := ChildFiles(s, disk, relative, child.name, child.entry);
    assert |files| == 1 && files[0].path == Joined(relative, child.name);
  }

  /** The scan of a system cannot fail of itself: its root fits and is missing, or is a scannable directory. */
  ghost predicate SystemScannable(s: System, root: Option<Entry>, disk: Disk) {
    && !RootTooLong(s, disk)
    && (root.Some? ==> root.value.Dir? && Scannable(s, disk, s.romPath, root.value, 0))
  }

  predicate RootTooLong(s: System, disk: Disk) {
    disk.rootLength + 1 + |s.romPath| >= PATH_MAX
  }

  lemma SystemScannableMeans(s: System, root: Option<Entry>, disk: Disk)
    ensures SystemScannable(s, root, disk) <==>
            && disk.rootLength + 1 + |s.romPath| < 4096
            && (root == None || (root.value.Dir? && Scannable(s, disk, s.romPath, root.value, 0)))
  {
    hide Scannable;
  }

  /** The image next to the games, when the system keeps images in a directory of its own. */
  function Image(s: System, disk: Disk, name: ByteString): Option<ByteString> {
    var image := s.imagePath + [SLASH] + DisplayTitle(name) + PNG_SUFFIX;
    if s.imagePath == [] || s.imagePath == s.romPath || |image| >= TEXT_SIZE ||
       disk.rootLength + 1 + |image| >= PATH_MAX
    then None
    else if image in disk.images then Some(image) else None
  }

  function RowOf(s: System, disk: Disk, f: GameFile): Row {
    Row(s.id, f.path, DisplayTitle(f.name), SortTitle(f.name), Image(s, disk, f.name), f.size, f.mtime, true)
  }

  /** The rows of the files by identifier, added to those found before. */
  function Found(found: map<Id, Row>, s: System, disk: Disk, files: seq<GameFile>): map<Id, Row> {
    if files == [] then found
    else
      var last := files[|files| - 1];
      Found(found, s, disk, files[..|files| - 1])[IdOf(s.id, last.path) := RowOf(s, disk, last)]
  }

  lemma {:induction false} FoundMore(found: map<Id, Row>, s: System, disk: Disk, a: seq<GameFile>, b: seq<GameFile>)
    ensures Found(found, s, disk, a + b) == Found(Found(found, s, disk, a), s, disk, b)
  {
    hide IdOf, RowOf;
    if b == [] {
      assert a + b == a;
    } else {
      assert (a + b)[..|a + b| - 1] == a + b[..|b| - 1];
      FoundMore(found, s, disk, a, b[..|b| - 1]);
    }
  }

  /** The place of a scan within the directory tree. */
  datatype Visit = Visit(system: System, disk: Disk, relative: ByteString, dir: Entry, depth: nat, before: map<Id, Row>)

  /** The state after the first n entries of the directory. */
  ghost predicate ReadTo(v: Visit, n: nat, found: map<Id, Row>, count: nat) {
    && v.dir.Dir? && n <= |v.dir.children| && v.depth <= MAX_SCAN_DEPTH
    && var files := Files(v.system, v.disk, v.relative, v.dir, n);
    && found == Found(v.before, v.system, v.disk, files) && count == |files|
    && forall i | 0 <= i < n :: ChildScannable(v.system, v.disk, v.relative, v.dir.children[i], v.depth)
  }

  ghost predicate ReadAll(v: Visit, found: map<Id, Row>, count: nat) {
    && v.dir.Dir? && Scannable(v.system, v.disk, v.relative, v.dir, v.depth)
    && var files := Below(v.system, v.disk, v.relative, v.dir);
    && found == Found(v.before, v.system, v.disk, files) && count == |files|
  }

  /** The state after one entry, read from the state before it. */
  ghost predicate ReadChild(v: Visit, child: Named, before: map<Id, Row>, found: map<Id, Row>, count: nat) {
    && ChildScannable(v.system, v.disk, v.relative, child, v.depth)
    && var files := ChildFiles(v.system, v.disk, v.relative, child.name, child.entry);
    && found == Found(before, v.system, v.disk, files) && count == |files|
  }

  lemma DepthLimit()
    ensures MAX_SCAN_DEPTH == 16
  {
  }

  lemma {:induction false} ReadNone(v: Visit)
    requires v.dir.Dir? && v.depth <= MAX_SCAN_DEPTH
    ensures ReadTo(v, 0, v.before, 0)
  {
    hide ChildScannable, ChildFiles;
  }

  lemma {:induction false} ReadNext(v: Visit, n: nat, before: map<Id, Row>, count: nat, found: map<Id, Row>, more: nat)
    requires ReadTo(v, n, before, count) && n < |v.dir.children| && ReadChild(v, v.dir.children[n], before, found, more)
    ensures ReadTo(v, n + 1, found, count + more)
  {
    hide ChildScannable, ChildFiles, Files, Found;
    var files, child := Files(v.system, v.disk, v.relative, v.dir, n), v.dir.children[n];
    var added := ChildFiles(v.system, v.disk, v.relative, child.name, child.entry);
    FilesNext(v.system, v.disk, v.relative, v.dir, n);
    FoundMore(v.before, v.system, v.disk, files, added);
  }

  lemma {:induction false} FilesNext(s: System, disk: Disk, relative: ByteString, dir: Entry, n: nat)
    requires dir.Dir? && n < |dir.children|
    ensures Files(s, disk, relative, dir, n + 1) ==
            Files(s, disk, relative, dir, n) +
                ChildFiles(s, disk, relative, dir.children[n].name, dir.children[n].entry)
  {
    hide ChildFiles;
  }

  lemma {:induction false} ReadLast(v: Visit, found: map<Id, Row>, count: nat)
    requires v.dir.Dir? && ReadTo(v, |v.dir.children|, found, count)
    ensures ReadAll(v, found, count)
  {
    hide ChildScannable, Scannable, ChildFiles, Found;
    ScannableChildren(v.system, v.disk, v.relative, v.dir, v.depth);
  }

  lemma {:induction false} FoundOne(found: map<Id, Row>, s: System, disk: Disk, file: GameFile)
    ensures Found(found, s, disk, [file]) == found[IdOf(s.id, file.path) := RowOf(s, disk, file)]
  {
    hide IdOf, RowOf;
    assert [file][..0] == [];
  }

  /** Writing a row makes a difference exactly when the table did not hold it. */
  lemma {:induction false} UpsertDiffers(base: map<Id, Row>, found: map<Id, Row>, id: Id, row: Row)
    ensures (base + found)[id := row] == base + found[id := row]
    ensures id in base + found && (base + found)[id] == row ==> (base + found)[id := row] == base + found
    ensures id !in found ==>
              (base + found[id := row] != base <==>
                  base + found != base || id !in base + found || (base + found)[id] != row)
  {
    if id !in found && base + found[id := row] == base {
      Differs(base, found, id, row);
    }
  }

  lemma {:induction false} Differs(base: map<Id, Row>, found: map<Id, Row>, id: Id, row: Row)
    requires base + found[id := row] == base && id !in found
    ensures base + found == base
  {
    var after := base + found[id := row];
    forall g | g in found
      ensures g in base && found[g] == base[g]
    {
      assert after[g] == found[g];
    }
  }

  // ----- The database during a scan -----

  /** Failed stands for every failure of the database or the system, duplicate rows included. */
  datatype Status = Done | NoSystem | TooBig | Corrupt | Failed

  class Database {
    var games: map<Id, Row>
    var generation: nat
    /** seen_games and scanned_systems */
    var seen: set<Id>
    var scanned: set<ByteString>
    var changed: bool
    /** The games before the scan, and the rows written since. */
    ghost var base: map<Id, Row>
    ghost var found: map<Id, Row>

    constructor ()
      ensures games == map[] && generation == 0
    {
      games, generation, seen, scanned, changed, base, found := map[], 0, {}, {}, false, map[], map[];
    }

    /** The table is the old one with the rows found written over it; `changed` says whether that made a difference. */
    ghost predicate Scanning()
      reads `games, `seen, `changed, `base, `found
    {
      games == base + found && seen == found.Keys && (changed <==> games != base)
    }

    /** The upsert: a row that is there already and equal is left alone. */
    method StoreGame(s: System, disk: Disk, relative: ByteString, name: ByteString, size: int, mtime: int)
      returns (status: Status)
      requires Scanning()
      modifies this`games, this`seen, this`changed, this`found
      ensures status == Done ==>
                && Scanning() && Storable(s, relative)
                && found == Found(old(found), s, disk, [GameFile(relative, name, size, mtime)])
      ensures status == Done ==>
                && var id := IdOf(s.id, relative);
                && id in games && games[id].system == s.id && games[id].path == relative
                && games[id].size == size && games[id].mtime == mtime && games[id].present
      ensures status == TooBig || status == Corrupt ==> !Storable(s, relative)
      ensures status != NoSystem
    {
      hide IdOf, NormalPath, Canonical, SortTitle, DisplayTitle, ValidSystem;
      if |ROM_ROOT| + |relative| >= PATH_MAX {
        return TooBig;
      }
      var created := Create(s.id, ROM_ROOT + relative, ID_LENGTH + 1, PATH_MAX);
      if created.Err? || created.value.1 != relative {
        CanonicalIsFixed(relative, PATH_MAX);
        return Corrupt;
      }
      NormalPathIsCanonical(ROM_ROOT + relative, PATH_MAX);
      var id := created.value.0;
      var display, sort := GameTitles(name);
      var row := Row(s.id, relative, display, sort, Image(s, disk, name), size, mtime, true);
      FoundOne(found, s, disk, GameFile(relative, name, size, mtime));
      assert row == RowOf(s, disk, GameFile(relative, name, size, mtime)) && id == IdOf(s.id, relative);
      hide Image, RowOf, Found;
      status := Upsert(id, row);
    }

    method Upsert(id: Id, row: Row) returns (status: Status)
      requires Scanning()
      modifies this`games, this`seen, this`changed, this`found
      ensures status == Done ==> Scanning() && found == old(found)[id := row]
      ensures status == Done || status == Failed
    {
      var ok: bool := *;
      if !ok || exists other | other in games ::
           other != id && games[other].system == row.system && games[other].path == row.path {
        return Failed;
      }
      UpsertDiffers(base, found, id, row);
      if id !in games || games[id] != row {
        games := games[id := row];
        changed := true;
      }
      if id in seen {
        return Failed;
      }
      seen := seen + {id};
      found := found[id := row];
      return Done;
    }

    /** Reads a directory entry by entry and its directories in turn. */
    method ScanDirectory(s: System, disk: Disk, dir: Entry, relative: ByteString, depth: nat,
                         ghost before: map<Id, Row>)
      returns (status: Status, count: nat, errors: nat)
      requires dir.Dir? && Scanning() && found == before
      modifies this`games, this`seen, this`changed, this`found
      ensures status == Done ==> Scanning() && ReadAll(Visit(s, disk, relative, dir, depth, before), found, count)
      ensures status == TooBig || status == Corrupt ==> !Scannable(s, disk, relative, dir, depth)
      ensures status != NoSystem
      decreases dir
    {
      hide *;
      count, errors := 0, 0;
      DepthLimit();
      ScannableChildren(s, disk, relative, dir, depth);
      if depth > MAX_SCAN_DEPTH {
        return TooBig, count, errors;
      }
      var readable: bool := *;
      if !readable {
        return Failed, count, errors;
      }
      ghost var v := Visit(s, disk, relative, dir, depth, before);
      ReadNone(v);
      var at := 0;
      while at < |dir.children|
        invariant 0 <= at <= |dir.children| && Scanning() && ReadTo(v, at, found, count)
      {
        var child := dir.children[at];
        ghost var sofar, counted := found, count;
        var more, failed;
        status, more, failed := ScanEntry(s, disk, child, relative, depth, found);
        if status != Done {
          return;
        }
        ReadNext(Visit(s, disk, relative, dir, depth, before), at, sofar, counted, found, more);
        count, errors := count + more, errors + failed;
        at := at + 1;
      }
      ReadLast(v, found, count);
      return Done, count, errors;
    }

    /** One entry of a directory. */
    method ScanEntry(s: System, disk: Disk, child: Named, relative: ByteString, depth: nat, ghost before: map<Id, Row>)
      returns (status: Status, count: nat, errors: nat)
      requires Scanning() && found == before
      modifies this`games, this`seen, this`changed, this`found
      ensures status == Done ==>
                Scanning() && forall v: Visit | v.system == s && v.disk == disk && v.relative == relative &&
                    v.depth == depth ::
                  ReadChild(v, child, before, found, count)
      ensures status == TooBig || status == Corrupt ==> !ChildScannable(s, disk, relative, child, depth)
      ensures status != NoSystem
      decreases child
    {
      hide Supported, IdOf, Canonical, ValidSystem, RowOf, TooDeep, Below, Files, Storable;
      if child.name != [] && child.name[0] == DOT_BYTE {
        return Done, 0, 0;
      }
      if TooLongName(disk, relative, child.name) {
        return Done, 0, 1;
      }
      match child.entry {
        case Link => return Done, 0, 1;
        case Other => return Done, 0, 0;
        case Dir(_) =>
          if Ignored(child.name) {
            return Done, 0, 0;
          }
          DirectoryScannable(s, disk, relative, child, depth);
          status, count, errors := ScanDirectory(s, disk, child.entry, Joined(relative, child.name), depth + 1, before);
        case File(size, mtime) =>
          var supported := ExtensionSupported(child.name, s.extensions);
          if !supported {
            return Done, 0, 0;
          }
          FileScannable(s, disk, relative, child, depth);
          status := StoreGame(s, disk, Joined(relative, child.name), child.name, size, mtime);
          return status, 1, 0;
      }
    }

    /** Clears the present flag of the games of scanned systems that were not seen. */
    method Sweep() returns (status: Status)
      requires Scanning()
      modifies this`games, this`changed
      ensures status == Done ==> games == Swept(base + found, scanned, found.Keys) && (changed <==> games != base)
      ensures status == Done || status == Failed
    {
      SweepDiffers(base, found, scanned);
      var gone := Gone(games, scanned, seen);
      status := ClearPresent(gone);
      hide Swept, Gone;
      if status == Done && gone != {} {
        changed := true;
      }
    }

    /** Clears the flag row by row. */
    method ClearPresent(gone: set<Id>) returns (status: Status)
      requires gone == Gone(games, scanned, seen)
      modifies this`games
      ensures status == Done ==> games == Swept(old(games), scanned, seen)
      ensures status == Done || status == Failed
    {
      var left := gone;
      ghost var before := games;
      assert gone <= games.Keys;
      hide Gone;
      while left != {}
        invariant left <= gone && games.Keys == before.Keys
        invariant forall id | id in games ::
                    games[id] == if id in gone && id !in left then before[id].(present := false) else before[id]
        decreases left
      {
        var id :| id in left;
        var ok: bool := *;
        if !ok {
          return Failed;
        }
        games := games[id := games[id].(present := false)];
        left := left - {id};
      }
      assert games == Swept(before, scanned, seen);
      return Done;
    }

    /** A whole scan, all or nothing. */
    method ScanGames(rows: seq<System>, roots: seq<Option<Entry>>, disk: Disk) returns (status: Status, count: nat)
      requires |roots| == |rows|
      modifies this
      ensures status == Done ==>
                && Loadable(rows) && AllScannable(rows, roots, disk, |rows|)
                && games == Swept(old(games) + AllFound(rows, roots, disk, |rows|), Ids(rows, |rows|),
                                  AllFound(rows, roots, disk, |rows|).Keys)
                && (changed <==> games != old(games))
                && generation == old(generation) + (if games != old(games) then 1 else 0)
      ensures status != Done ==> games == old(games) && generation == old(generation)
      ensures status == NoSystem <==> rows == []
      ensures status == TooBig || status == Corrupt ==> !Loadable(rows) || !AllScannable(rows, roots, disk, |rows|)
    {
      hide AllFound, AllScannable, Loadable, Ids, ValidSystemRow, Swept;
      count := 0;
      status := LoadSystems(rows);
      if status != Done {
        return;
      }
      var saved := games;
      seen, scanned, changed := {}, {}, false;
      base, found := games, map[];
      status, count := ScanSystems(rows, roots, disk);
      if status == Done {
        status := Sweep();
      }
      var committed: bool := *;
      if status == Done && !committed {
        status := Failed;
      }
      if status != Done {
        games := saved;
        return;
      }
      if changed {
        generation := generation + 1;
      }
    }

    method ScanSystems(rows: seq<System>, roots: seq<Option<Entry>>, disk: Disk) returns (status: Status, count: nat)
      requires |roots| == |rows| && Scanning() && found == map[] && scanned == {}
      modifies this`games, this`seen, this`changed, this`found, this`scanned
      ensures status == Done ==>
                Scanning() && found == AllFound(rows, roots, disk, |rows|) &&
                scanned == Ids(rows, |rows|) && AllScannable(rows, roots, disk, |rows|)
      ensures status == TooBig || status == Corrupt ==> !AllScannable(rows, roots, disk, |rows|)
      ensures status != NoSystem
    {
      count := 0;
      var index := 0;
      NoSystems(rows, roots, disk);
      hide *;
      while index < |rows|
        invariant 0 <= index <= |rows| && Scanning()
        invariant found == AllFound(rows, roots, disk, index) && scanned == Ids(rows, index)
        invariant AllScannable(rows, roots, disk, index)
      {
        ScannableStep(rows, roots, disk, index);
        AllFoundStep(rows, roots, disk, index);
        var more;
        status, more := ScanSystem(rows[index], roots[index], disk, found);
        if status != Done {
          return;
        }
        count := count + more;
        index := index + 1;
      }
      return Done, count;
    }

    method ScanSystem(s: System, root: Option<Entry>, disk: Disk, ghost before: map<Id, Row>)
      returns (status: Status, count: nat)
      requires Scanning() && found == before
      modifies this`games, this`seen, this`changed, this`found, this`scanned
      ensures status == Done ==>
                Scanning() && found == NextFound(before, s, root, disk) && scanned == old(scanned) + {s.id} &&
                SystemScannable(s, root, disk)
      ensures status == TooBig || status == Corrupt ==> !SystemScannable(s, root, disk)
      ensures status != NoSystem
    {
      hide *;
      SystemScannableIs(s, root, disk);
      count := 0;
      if RootTooLong(s, disk) {
        return TooBig, count;
      }
      var reachable: bool := *;
      if !reachable {
        return Failed, count;
      }
      if root.Some? {
        if !root.value.Dir? {
          return Failed, count;
        }
        var errors;
        status, count, errors := ScanDirectory(s, disk, root.value, s.romPath, 0, before);
        if status != Done {
          return;
        }
        WholeDirectory(s, disk, root.value, before, found, count);
      } else {
        NoRoot(before, s, root, disk);
      }
      if s.id in scanned {
        return Failed, count;
      }
      scanned := scanned + {s.id};
      return Done, count;
    }
  }

  lemma {:induction false} WholeDirectory(s: System, disk: Disk, dir: Entry, before: map<Id, Row>, found: map<Id, Row>,
                                          count: nat)
    requires ReadAll(Visit(s, disk, s.romPath, dir, 0, before), found, count)
    ensures found == NextFound(before, s, Some(dir), disk) && dir.Dir? && Scannable(s, disk, s.romPath, dir, 0)
  {
    hide Found, Below, Scannable;
  }

  lemma {:induction false} SystemScannableIs(s: System, root: Option<Entry>, disk: Disk)
    ensures SystemScannable(s, root, disk) <==>
            && !RootTooLong(s, disk)
            && (root.Some? ==> root.value.Dir? && Scannable(s, disk, s.romPath, root.value, 0))
  {
    hide Scannable;
  }

  lemma NoRoot(before: map<Id, Row>, s: System, root: Option<Entry>, disk: Disk)
    requires root.None?
    ensures NextFound(before, s, root, disk) == before
  {
    hide Found, Below;
  }

  lemma {:induction false} ScannableStep(rows: seq<System>, roots: seq<Option<Entry>>, disk: Disk, n: nat)
    requires n < |rows| == |roots|
    ensures AllScannable(rows, roots, disk, n + 1) <==>
            AllScannable(rows, roots, disk, n) && SystemScannable(rows[n], roots[n], disk)
    ensures AllScannable(rows, roots, disk, |rows|) ==> SystemScannable(rows[n], roots[n], disk)
  {
    hide SystemScannable;
  }

  // ----- The systems to scan -----

  predicate ExtensionByte(b: Byte) {
    0x61 <= b <= 0x7a || 0x41 <= b <= 0x5a || 0x30 <= b <= 0x39
  }

  predicate Extension(token: ByteString) {
    1 <= |token| <= 16 && forall i | 0 <= i < |token| :: ExtensionByte(token[i])
  }

  ghost predicate ExtensionList(value: ByteString) {
    |value| < TEXT_SIZE && AllExtensions(Tokens(value))
  }

  ghost predicate AllExtensions(tokens: seq<ByteString>) {
    forall i | 0 <= i < |tokens| :: Extension(tokens[i])
  }

  method ValidExtensions(value: ByteString) returns (valid: bool)
    ensures valid <==> ExtensionList(value)
  {
    hide *;
    ListIsExtensions(value);
    if |value| >= TEXT_SIZE {
      return false;
    }
    var at := 0;
    while at < |value|
      invariant at <= |value|
      invariant ExtensionList(value) <==> AllExtensions(TokensFrom(value, at))
      decreases |value| - at
    {
      var separator, token := NextToken(value, at);
      ExtensionsNext(token, Behind(value, separator));
      BehindBar(value, separator);
      if !Extension(token) {
        return false;
      }
      if separator == |value| {
        return true;
      }
      at := separator + 1;
    }
    return false;
  }

  lemma {:induction false} ListIsExtensions(value: ByteString)
    ensures ExtensionList(value) <==> |value| < TEXT_SIZE && AllExtensions(TokensFrom(value, 0))
    ensures !AllExtensions(TokensFrom(value, |value|))
  {
    hide Tokens;
    TokensFromEnds(value);
    assert !Extension([[]][0]);
  }

  lemma {:induction false} ExtensionsNext(token: ByteString, rest: seq<ByteString>)
    ensures AllExtensions([token] + rest) <==> Extension(token) && AllExtensions(rest)
    ensures AllExtensions([])
  {
    hide Extension;
    var tokens := [token] + rest;
    assert tokens[0] == token && forall i | 0 <= i < |rest| :: rest[i] == tokens[i + 1];
  }

  ghost predicate ValidSystemRow(s: System) {
    && ValidSystem(s.id) && |s.id| < 64
    && Canonical(s.romPath) && |s.romPath| < TEXT_SIZE
    && ExtensionList(s.extensions)
    && (s.imagePath != [] ==> Canonical(s.imagePath) && |s.imagePath| < TEXT_SIZE)
  }

  ghost predicate Loadable(rows: seq<System>) {
    0 < |rows| <= MAX_SYSTEMS && forall i | 0 <= i < |rows| :: ValidSystemRow(rows[i])
  }

  /** Accepts the rows of the systems table only if every one of them is usable. */
  method LoadSystems(rows: seq<System>) returns (status: Status)
    ensures status == Done <==> Loadable(rows)
    ensures status == NoSystem <==> rows == []
    ensures status == Done || status == NoSystem || status == Corrupt
  {
    hide Canonical, ExtensionList, ValidSystem;
    var count := 0;
    while count < |rows|
      invariant 0 <= count <= |rows| && count <= MAX_SYSTEMS
      invariant forall i | 0 <= i < count :: ValidSystemRow(rows[i])
    {
      if count >= MAX_SYSTEMS {
        return Corrupt;
      }
      var s := rows[count];
      var safe := SafeRelativePath(s.romPath);
      var extensions := ValidExtensions(s.extensions);
      var image := true;
      if s.imagePath != [] {
        image := SafeRelativePath(s.imagePath);
      }
      if !ValidSystem(s.id) || |s.id| >= 64 || !safe || !extensions || !image {
        assert !ValidSystemRow(rows[count]);
        return Corrupt;
      }
      count := count + 1;
    }
    return if rows == [] then NoSystem else Done;
  }

  // ----- What a scan leaves -----

  /** The first n systems and their directories give a scan no reason to fail. */
  ghost predicate AllScannable(rows: seq<System>, roots: seq<Option<Entry>>, disk: Disk, n: nat)
    requires n <= |rows| == |roots|
  {
    forall i | 0 <= i < n :: SystemScannable(rows[i], roots[i], disk)
  }

  function Ids(rows: seq<System>, n: nat): set<ByteString>
    requires n <= |rows|
  {
    if n == 0 then {} else Ids(rows, n - 1) + {rows[n - 1].id}
  }

  ghost function NextFound(before: map<Id, Row>, s: System, root: Option<Entry>, disk: Disk): map<Id, Row> {
    match root
    case None => before
    case Some(dir) => Found(before, s, disk, Below(s, disk, s.romPath, dir))
  }

  /** The rows of all files found in the directories of the first n systems. */
  ghost function AllFound(rows: seq<System>, roots: seq<Option<Entry>>, disk: Disk, n: nat): map<Id, Row>
    requires n <= |rows| == |roots|
  {
    if n == 0 then map[] else NextFound(AllFound(rows, roots, disk, n - 1), rows[n - 1], roots[n - 1], disk)
  }

  lemma {:induction false} NoSystems(rows: seq<System>, roots: seq<Option<Entry>>, disk: Disk)
    requires |rows| == |roots|
    ensures AllFound(rows, roots, disk, 0) == map[] && Ids(rows, 0) == {} && AllScannable(rows, roots, disk, 0)
  {
  }

  lemma {:induction false} AllFoundStep(rows: seq<System>, roots: seq<Option<Entry>>, disk: Disk, n: nat)
    requires n < |rows| == |roots|
    ensures AllFound(rows, roots, disk, n + 1) == NextFound(AllFound(rows, roots, disk, n), rows[n], roots[n], disk)
    ensures Ids(rows, n + 1) == Ids(rows, n) + {rows[n].id}
  {
    hide NextFound;
  }

  function Gone(games: map<Id, Row>, scanned: set<ByteString>, seen: set<Id>): set<Id> {
    set id | id in games && games[id].present && games[id].system in scanned && id !in seen
  }

  function Swept(games: map<Id, Row>, scanned: set<ByteString>, seen: set<Id>): map<Id, Row> {
    map id | id in games :: if id in Gone(games, scanned, seen) then games[id].(present := false) else games[id]
  }

  lemma {:induction false} SweepDiffers(base: map<Id, Row>, found: map<Id, Row>, scanned: set<ByteString>)
    ensures var games := base + found;
            Swept(games, scanned, found.Keys) != base <==> games != base || Gone(games, scanned, found.Keys) != {}
  {
    var games := base + found;
    var gone, swept := Gone(games, scanned, found.Keys), Swept(games, scanned, found.Keys);
    if gone != {} {
      var id :| id in gone;
      assert id in base && swept[id] != base[id];
    } else {
      assert swept == games;
    }
  }

  // ----- The files and their rows in plain terms -----

  /** A list is cut at its bars. */
  lemma {:induction false} TokensMean(list: ByteString, last: ByteString)
    requires forall i | 0 <= i < |last| :: last[i] as int as char != '|'
    ensures Tokens(last) == [last] && Tokens(list + Ascii("|") + last) == Tokens(list) + [last]
  {
    hide Tokens, Ascii;
    assert Ascii("|") == [BAR] by { BarMeans(); }
    FirstToken(last, last);
    var whole := list + [BAR] + last;
    TokensFirst(whole);
    if list == [] {
      assert whole[1..] == last;
      assert Tokens(list) == [[]] by { NoTokens(); }
    } else {
      assert whole[1..] == list[1..] + [BAR] + last;
      TokensMean(list[1..], last);
      TokensFirst(list);
    }
  }

  lemma BarMeans()
    ensures Ascii("|") == [BAR]
  {
  }

  lemma NoTokens()
    ensures Tokens([]) == [[]]
  {
  }

  lemma TokensFirst(list: ByteString)
    requires list != []
    ensures var rest := Tokens(list[1..]);
            Tokens(list) == if list[0] == BAR then [[]] + rest else [[list[0]] + rest[0]] + rest[1..]
  {
  }

  /** What stands behind the last dot has to match one of the extensions, in whatever case. */
  lemma SupportedMeans(front: ByteString, extension: ByteString, extensions: ByteString)
    requires forall i | 0 <= i < |extension| :: extension[i] as int as char != '.'
    ensures !Supported(extension, extensions)
    ensures Supported(front + Ascii(".") + extension, extensions) <==>
            extension != [] &&
            exists token :: token in Tokens(extensions) && JsonCompare.KeyMatches(token, extension, false)
  {
    var name := front + Ascii(".") + extension;
    assert Ascii(".") == [DOT_BYTE];
    assert name[|front|] == DOT_BYTE && name[|front| + 1..] == extension;
    hide Tokens, JsonCompare.Lower;
  }

  /** At least one system, at most 128, and each of them usable. */
  lemma LoadableMeans(rows: seq<System>)
    ensures Loadable(rows) <==>
            && 1 <= |rows| <= 128
            && forall i | 0 <= i < |rows| ::
                 && ValidSystem(rows[i].id) && |rows[i].id| < 64
                 && Canonical(rows[i].romPath) && |rows[i].romPath| < 512
                 && (rows[i].imagePath == [] || (Canonical(rows[i].imagePath) && |rows[i].imagePath| < 512))
                 && |rows[i].extensions| < 512
                 && forall token | token in Tokens(rows[i].extensions) ::
                      && 1 <= |token| <= 16
                      && forall k | 0 <= k < |token| ::
                           var c := token[k] as int as char;
                           'a' <= c <= 'z' || 'A' <= c <= 'Z' || '0' <= c <= '9'
  {
    hide ValidSystem, Canonical, Tokens;
  }

  /** The name without its extension; a dot in front makes none. */
  ghost predicate IsStem(name: ByteString, stem: ByteString) {
    || (stem == name && forall i | 1 <= i < |name| :: name[i] as int as char != '.')
    || (stem != [] && stem + Ascii(".") <= name &&
        forall i | |stem| < i < |name| :: name[i] as int as char != '.')
  }

  lemma StemOnce(name: ByteString, a: ByteString, b: ByteString)
    requires IsStem(name, a) && IsStem(name, b)
    ensures a == b
  {
    assert Ascii(".") == [DOT_BYTE];
    hide Ascii;
    assert a != name ==> name[|a|] as int as char == '.' && name[..|a|] == a;
    assert b != name ==> name[|b|] as int as char == '.' && name[..|b|] == b;
  }

  /** The picture of a game: next to the others of its system, named after its title. */
  ghost predicate IsPicture(s: System, disk: Disk, title: ByteString, path: ByteString) {
    && s.imagePath != [] && s.imagePath != s.romPath
    && path == s.imagePath + Ascii("/") + title + Ascii(".png") && path in disk.images
    && |path| < 512 && disk.rootLength + 1 + |path| < 4096
  }

  /** The row of a file: its own size and time, its name without the extension, cut to 511 bytes, as title. */
  lemma RowMeans(s: System, disk: Disk, f: GameFile) returns (stem: ByteString)
    ensures var row := RowOf(s, disk, f);
            && row.system == s.id && row.path == f.path && row.size == f.size && row.mtime == f.mtime && row.present
            && IsStem(f.name, stem) && row.displayTitle == (if |stem| > 511 then stem[..511] else stem)
            && |row.sortTitle| == |row.displayTitle|
            && (forall i | 0 <= i < |row.sortTitle| ::
                  row.sortTitle[i] ==
                  if 'A' <= row.displayTitle[i] as int as char <= 'Z' then row.displayTitle[i] + 32
                  else row.displayTitle[i])
            && (forall path :: row.image == Some(path) <==> IsPicture(s, disk, row.displayTitle, path))
  {
    stem := TitleMeans(f.name);
    LowerMeans(DisplayTitle(f.name));
    ImageMeans(s, disk, f.name);
    hide DisplayTitle, Image, IsStem, IsPicture, JsonCompare.Lower;
  }

  lemma TitleMeans(name: ByteString) returns (stem: ByteString)
    ensures IsStem(name, stem) && DisplayTitle(name) == if |stem| > 511 then stem[..511] else stem
  {
    var dot := LastDot(name);
    stem := if 0 < dot < |name| then name[..dot] else name;
    assert Ascii(".") == [DOT_BYTE];
    hide LastDot;
    assert 0 < dot < |name| ==> stem + [DOT_BYTE] <= name;
  }

  lemma LowerMeans(text: ByteString)
    ensures |JsonCompare.Lower(text)| == |text|
    ensures forall i | 0 <= i < |text| ::
              JsonCompare.Lower(text)[i] ==
              if 'A' <= text[i] as int as char <= 'Z' then text[i] + 32 else text[i]
  {
  }

  lemma ImageMeans(s: System, disk: Disk, name: ByteString)
    ensures forall path :: Image(s, disk, name) == Some(path) <==> IsPicture(s, disk, DisplayTitle(name), path)
  {
    assert Ascii("/") == [SLASH];
    hide DisplayTitle, PNG_SUFFIX;
    assert PNG_SUFFIX == Ascii(".png") by { PictureSuffix(); }
  }

  lemma PictureSuffix()
    ensures PNG_SUFFIX == Ascii(".png")
  {
  }

  /** Following these names down from a directory leads to the target. */
  ghost predicate Reaches(entry: Entry, names: seq<ByteString>, target: Entry) {
    if names == [] then entry == target
    else
      entry.Dir? && exists i ::
        0 <= i < |entry.children| && entry.children[i].name == names[0] &&
        Reaches(entry.children[i].entry, names[1..], target)
  }

  /** The path of what these names lead to. */
  function PathOf(relative: ByteString, names: seq<ByteString>): ByteString
    decreases |names|
  {
    if names == [] then relative else PathOf(relative + Ascii("/") + names[0], names[1..])
  }

  /**
   No name begins with a dot, no directory is one for pictures, every path on the way fits 4096 bytes, and the
   last name ends with one of the extensions.
   */
  ghost predicate Eligible(s: System, disk: Disk, relative: ByteString, names: seq<ByteString>)
    decreases |names|
  {
    && names != []
    && !(names[0] != [] && names[0][0] as int as char == '.')
    && disk.rootLength + 1 + |relative + Ascii("/") + names[0]| < 4096
    && (if |names| == 1 then Supported(names[0], s.extensions)
        else
          && names[0] !in [Ascii("Imgs"), Ascii("images"), Ascii("Snaps")]
          && Eligible(s, disk, relative + Ascii("/") + names[0], names[1..]))
  }

  /** A file that is found is an eligible one of the tree. */
  lemma {:induction false} FoundIsThere(s: System, disk: Disk, relative: ByteString, dir: Entry, n: nat, f: GameFile)
    returns (names: seq<ByteString>)
    requires dir.Dir? && n <= |dir.children| && f in Files(s, disk, relative, dir, n)
    ensures Reaches(dir, names, File(f.size, f.mtime)) && Eligible(s, disk, relative, names)
    ensures f.path == PathOf(relative, names) && f.name == names[|names| - 1]
    decreases dir, 0, n
  {
    hide Supported, Files, Below;
    assert n > 0 by { SomeFile(s, disk, relative, dir, n, f); }
    FilesNext(s, disk, relative, dir, n - 1);
    if f in Files(s, disk, relative, dir, n - 1) {
      names := FoundIsThere(s, disk, relative, dir, n - 1, f);
    } else {
      var child := dir.children[n - 1];
      assert f in ChildFiles(s, disk, relative, child.name, child.entry);
      WaysMean(relative, child.name);
      hide TooLongName, Joined, Ignored;
      if child.entry.Dir? {
        BelowIs(s, disk, Joined(relative, child.name), child.entry);
        var rest := FoundIsThere(s, disk, Joined(relative, child.name), child.entry, |child.entry.children|, f);
        names := [child.name] + rest;
        assert names[1..] == rest && names[|names| - 1] == rest[|rest| - 1];
      } else {
        names := [child.name];
        assert names[1..] == [] && Reaches(child.entry, [], File(f.size, f.mtime));
      }
      assert dir.children[n - 1].name == names[0];
    }
  }

  lemma {:induction false} SomeFile(s: System, disk: Disk, relative: ByteString, dir: Entry, n: nat, f: GameFile)
    requires dir.Dir? && n <= |dir.children| && f in Files(s, disk, relative, dir, n)
    ensures n > 0
  {
  }

  lemma {:induction false} BelowIs(s: System, disk: Disk, relative: ByteString, dir: Entry)
    requires dir.Dir?
    ensures Below(s, disk, relative, dir) == Files(s, disk, relative, dir, |dir.children|)
  {
    hide Files;
  }

  lemma WaysMean(relative: ByteString, name: ByteString)
    ensures Joined(relative, name) == relative + Ascii("/") + name
    ensures forall disk ::
              TooLongName(disk, relative, name) <==> disk.rootLength + 1 + |relative + Ascii("/") + name| >= 4096
    ensures Ignored(name) <==> name in [Ascii("Imgs"), Ascii("images"), Ascii("Snaps")]
    ensures DOT_BYTE as int as char == '.'
  {
    assert Ascii("/") == [SLASH];
  }

  /** And every eligible file of the tree is found. */
  lemma {:induction false} ThereIsFound(s: System, disk: Disk, relative: ByteString, dir: Entry,
                                        names: seq<ByteString>, size: int, mtime: int)
    requires dir.Dir? && Reaches(dir, names, File(size, mtime)) && Eligible(s, disk, relative, names)
    ensures GameFile(PathOf(relative, names), names[|names| - 1], size, mtime) in Below(s, disk, relative, dir)
    decreases |names|
  {
    hide Supported, Files, Below;
    var i :|
      0 <= i < |dir.children| && dir.children[i].name == names[0] &&
      Reaches(dir.children[i].entry, names[1..], File(size, mtime));
    var child, f := dir.children[i], GameFile(PathOf(relative, names), names[|names| - 1], size, mtime);
    WaysMean(relative, child.name);
    BelowIs(s, disk, relative, dir);
    hide TooLongName, Joined, Ignored;
    if |names| > 1 {
      assert child.entry.Dir?;
      ThereIsFound(s, disk, Joined(relative, child.name), child.entry, names[1..], size, mtime);
      assert names[1..][|names| - 2] == names[|names| - 1];
      assert f in ChildFiles(s, disk, relative, child.name, child.entry);
    } else {
      assert names[1..] == [] && child.entry == File(size, mtime);
      assert PathOf(relative, names) == PathOf(relative + Ascii("/") + child.name, []);
      assert ChildFiles(s, disk, relative, child.name, child.entry) == [f];
    }
    ChildInFiles(s, disk, relative, dir, i, |dir.children|, f);
  }

  lemma {:induction false} ChildInFiles(s: System, disk: Disk, relative: ByteString, dir: Entry, i: nat, n: nat,
                                        f: GameFile)
    requires dir.Dir? && i < n <= |dir.children|
    requires f in ChildFiles(s, disk, relative, dir.children[i].name, dir.children[i].entry)
    ensures f in Files(s, disk, relative, dir, n)
  {
    hide ChildFiles, Files;
    FilesNext(s, disk, relative, dir, n - 1);
    if i < n - 1 {
      ChildInFiles(s, disk, relative, dir, i, n - 1, f);
    }
  }

  /** Every row found is that of a file in the directory of one of the systems. */
  lemma {:induction false} FoundFile(rows: seq<System>, roots: seq<Option<Entry>>, disk: Disk, n: nat, id: Id)
    returns (i: nat, f: GameFile)
    requires n <= |rows| == |roots| && id in AllFound(rows, roots, disk, n)
    ensures i < n && roots[i].Some? && f in Below(rows[i], disk, rows[i].romPath, roots[i].value)
    ensures id == IdOf(rows[i].id, f.path) && AllFound(rows, roots, disk, n)[id] == RowOf(rows[i], disk, f)
  {
    hide AllFound, Below, IdOf, RowOf, Found;
    assert n > 0 by { NoSystems(rows, roots, disk); }
    AllFoundStep(rows, roots, disk, n - 1);
    var here: Option<GameFile> := None;
    if roots[n - 1].Some? {
      var s := rows[n - 1];
      here := FoundIn(AllFound(rows, roots, disk, n - 1), s, disk, Below(s, disk, s.romPath, roots[n - 1].value), id);
    }
    if here.Some? {
      i, f := n - 1, here.value;
    } else {
      i, f := FoundFile(rows, roots, disk, n - 1, id);
    }
  }

  lemma {:induction false} FoundIn(found: map<Id, Row>, s: System, disk: Disk, files: seq<GameFile>, id: Id)
    returns (f: Option<GameFile>)
    requires id in Found(found, s, disk, files)
    ensures f.None? ==> id in found && Found(found, s, disk, files)[id] == found[id]
    ensures f.Some? ==>
              f.value in files && id == IdOf(s.id, f.value.path) &&
              Found(found, s, disk, files)[id] == RowOf(s, disk, f.value)
  {
    hide IdOf, RowOf;
    if files == [] {
      f := None;
    } else if id == IdOf(s.id, files[|files| - 1].path) {
      f := Some(files[|files| - 1]);
    } else {
      f := FoundIn(found, s, disk, files[..|files| - 1], id);
    }
  }

  /** And every file in one of them has its row. */
  lemma {:induction false} FileFound(rows: seq<System>, roots: seq<Option<Entry>>, disk: Disk, n: nat, i: nat,
                                     f: GameFile)
    requires i < n <= |rows| == |roots| && roots[i].Some?
    requires f in Below(rows[i], disk, rows[i].romPath, roots[i].value)
    ensures IdOf(rows[i].id, f.path) in AllFound(rows, roots, disk, n)
  {
    AllFoundStep(rows, roots, disk, n - 1);
    hide AllFound, Below, IdOf, RowOf, Found;
    if i < n - 1 {
      FileFound(rows, roots, disk, n - 1, i, f);
    }
    var s := rows[n - 1];
    if roots[n - 1].Some? {
      FoundKeeps(AllFound(rows, roots, disk, n - 1), s, disk, Below(s, disk, s.romPath, roots[n - 1].value));
    }
  }

  lemma {:induction false} FoundKeeps(found: map<Id, Row>, s: System, disk: Disk, files: seq<GameFile>)
    ensures found.Keys <= Found(found, s, disk, files).Keys
    ensures forall f | f in files :: IdOf(s.id, f.path) in Found(found, s, disk, files)
  {
    hide IdOf, RowOf;
    if files != [] {
      FoundKeeps(found, s, disk, files[..|files| - 1]);
      assert files == files[..|files| - 1] + [files[|files| - 1]];
    }
  }

  /**
   After a scan a game that was found has the size, the time, the path and the title of a file that is there, and
   its picture.
   */
  lemma {:induction false} ScannedFile(base: map<Id, Row>, rows: seq<System>, roots: seq<Option<Entry>>, disk: Disk,
                                       id: Id)
    returns (i: nat, names: seq<ByteString>, size: int, mtime: int, stem: ByteString)
    requires |roots| == |rows| && id in AllFound(rows, roots, disk, |rows|)
    ensures i < |rows| && roots[i].Some? && Reaches(roots[i].value, names, File(size, mtime))
    ensures Eligible(rows[i], disk, rows[i].romPath, names) && IsStem(names[|names| - 1], stem)
    ensures var found := AllFound(rows, roots, disk, |rows|);
            var games := Swept(base + found, Ids(rows, |rows|), found.Keys);
            && id in games && id == IdOf(rows[i].id, PathOf(rows[i].romPath, names))
            && var row := games[id];
            && row.system == rows[i].id && row.path == PathOf(rows[i].romPath, names) && row.present
            && row.size == size && row.mtime == mtime
            && row.displayTitle == (if |stem| > 511 then stem[..511] else stem)
            && forall path :: row.image == Some(path) <==> IsPicture(rows[i], disk, row.displayTitle, path)
  {
    ScanExact(base, rows, roots, disk);
    hide AllFound, Ids, Swept, Below, Files, RowOf, IdOf, Reaches, Eligible, IsStem, IsPicture;
    var f;
    i, f := FoundFile(rows, roots, disk, |rows|, id);
    var dir := roots[i].value;
    assert dir.Dir? by { BelowSome(rows[i], disk, rows[i].romPath, dir, f); }
    BelowIs(rows[i], disk, rows[i].romPath, dir);
    names := FoundIsThere(rows[i], disk, rows[i].romPath, dir, |dir.children|, f);
    stem := RowMeans(rows[i], disk, f);
    size, mtime := f.size, f.mtime;
  }

  lemma BelowSome(s: System, disk: Disk, relative: ByteString, dir: Entry, f: GameFile)
    requires f in Below(s, disk, relative, dir)
    ensures dir.Dir?
  {
  }

  /** And every eligible file that is there has been found under its identifier. */
  lemma {:induction false} FileScanned(rows: seq<System>, roots: seq<Option<Entry>>, disk: Disk, i: nat,
                                       names: seq<ByteString>, size: int, mtime: int)
    requires |roots| == |rows| && i < |rows| && roots[i].Some?
    requires Reaches(roots[i].value, names, File(size, mtime)) && Eligible(rows[i], disk, rows[i].romPath, names)
    ensures IdOf(rows[i].id, PathOf(rows[i].romPath, names)) in AllFound(rows, roots, disk, |rows|)
  {
    assert roots[i].value.Dir?;
    ThereIsFound(rows[i], disk, rows[i].romPath, roots[i].value, names, size, mtime);
    hide *;
    FileFound(rows, roots, disk, |rows|, i,
              GameFile(PathOf(rows[i].romPath, names), names[|names| - 1], size, mtime));
  }

  // ----- What a successful scan means -----

  /** Rows as a scan writes them: present, of this system, keyed by system and path, titled after the file. */
  ghost predicate Keyed(id: Id, row: Row) {
    ValidSystem(row.system) && id == IdOf(row.system, row.path) && row.sortTitle == SortTitle(BaseName(row.path))
  }

  ghost predicate AllKeyed(games: map<Id, Row>) {
    forall id | id in games :: Keyed(id, games[id])
  }

  /** The part of a path behind its last slash. */
  function BaseName(path: ByteString): ByteString {
    if path == [] || path[|path| - 1] == SLASH then [] else BaseName(path[..|path| - 1]) + [path[|path| - 1]]
  }

  lemma {:induction false} BaseOfJoined(directory: ByteString, name: ByteString)
    requires SLASH !in name
    ensures BaseName(Joined(directory, name)) == name
  {
    var path := Joined(directory, name);
    if name != [] {
      var last := name[|name| - 1];
      assert last in name && path[|path| - 1] == last && path[..|path| - 1] == Joined(directory, name[..|name| - 1]);
      BaseOfJoined(directory, name[..|name| - 1]);
    }
  }

  /** No name is empty or contains a slash. */
  ghost predicate NamesPlain(entry: Entry) {
    entry.Dir? ==> forall i | 0 <= i < |entry.children| :: PlainName(entry.children[i].name) &&
                     NamesPlain(entry.children[i].entry)
  }

  predicate PlainName(name: ByteString) {
    name != [] && SLASH !in name
  }

  lemma {:induction false} FilesNamed(s: System, disk: Disk, relative: ByteString, dir: Entry, n: nat)
    requires dir.Dir? && NamesPlain(dir) && n <= |dir.children|
    ensures forall f | f in Files(s, disk, relative, dir, n) :: BaseName(f.path) == f.name
    decreases dir, 0, n
  {
    if n > 0 {
      FilesNamed(s, disk, relative, dir, n - 1);
      var child := dir.children[n - 1];
      hide BaseName, Supported;
      if child.entry.Dir? {
        FilesNamed(s, disk, Joined(relative, child.name), child.entry, |child.entry.children|);
        assert forall f | f in ChildFiles(s, disk, relative, child.name, child.entry) ::
            f in Files(s, disk, Joined(relative, child.name), child.entry, |child.entry.children|);
      } else {
        BaseOfJoined(relative, child.name);
      }
    }
  }

  /** No segment is empty, "." or "..". */
  ghost predicate Tidy(path: ByteString) {
    forall i | 0 <= i < |Split(path)| :: !Dropped(Split(path)[i]) && Split(path)[i] != DOT_DOT
  }

  lemma TidyJoined(directory: ByteString, name: ByteString)
    requires Tidy(directory) && PlainName(name) && name[0] != DOT_BYTE
    ensures Tidy(Joined(directory, name))
  {
    SplitSlash(directory, name);
    SplitSegment(name, []);
    assert name + [] == name;
  }

  lemma TidyCanonical(path: ByteString)
    ensures Canonical(path) <==> Tidy(path) && !HasUnsafe(path)
  {
    SplitUnsafe(path);
    var segments := Split(path);
    assert forall i | 0 <= i < |segments| :: Safe(segments[i]) <==> segments[i] != DOT_DOT && !HasUnsafe(segments[i]);
  }

  /**
   Of the game files in a tree of plain names exactly those can be stored whose path is short enough and has no
   control character, delete or backslash; any other one makes every scan of its system fail.
   */
  lemma {:induction false} FilesStorableExactly(s: System, disk: Disk, dir: Entry, f: GameFile)
    requires ValidSystemRow(s) && dir.Dir? && NamesPlain(dir) && f in Below(s, disk, s.romPath, dir)
    ensures Storable(s, f.path) <==>
            17 + |f.path| < 4096 && forall i | 0 <= i < |f.path| :: f.path[i] >= 0x20 && f.path[i] !in [0x5c, 0x7f]
    ensures !Storable(s, f.path) ==> !SystemScannable(s, Some(dir), disk)
  {
    hide NamesPlain, Files, Canonical, Tidy, HasUnsafe, Split, ExtensionList, TooDeep;
    UnsafeMeans(f.path);
    TidyCanonical(s.romPath);
    FilesTidy(s, disk, s.romPath, dir, |dir.children|);
    TidyCanonical(f.path);
  }

  lemma {:induction false} FilesTidy(s: System, disk: Disk, relative: ByteString, dir: Entry, n: nat)
    requires dir.Dir? && NamesPlain(dir) && n <= |dir.children| && Tidy(relative)
    ensures forall f | f in Files(s, disk, relative, dir, n) :: Tidy(f.path)
    decreases dir, 0, n
  {
    if n > 0 {
      FilesTidy(s, disk, relative, dir, n - 1);
      var child := dir.children[n - 1];
      hide Tidy, Supported, Joined;
      if child.name[0] != DOT_BYTE {
        TidyJoined(relative, child.name);
        if child.entry.Dir? {
          FilesTidy(s, disk, Joined(relative, child.name), child.entry, |child.entry.children|);
          assert forall f | f in ChildFiles(s, disk, relative, child.name, child.entry) ::
              f in Files(s, disk, Joined(relative, child.name), child.entry, |child.entry.children|);
        }
      }
    }
  }

  lemma {:induction false} FoundKeyed(found: map<Id, Row>, s: System, disk: Disk, files: seq<GameFile>)
    requires AllKeyed(found) && ValidSystem(s.id) && forall f | f in files :: BaseName(f.path) == f.name
    ensures AllKeyed(Found(found, s, disk, files))
  {
    hide IdOf, SortTitle, BaseName, ValidSystem;
    if files != [] {
      FoundKeyed(found, s, disk, files[..|files| - 1]);
    }
  }

  lemma {:induction false} FoundPresent(found: map<Id, Row>, s: System, disk: Disk, files: seq<GameFile>)
    ensures var all := Found(found, s, disk, files);
            forall id | id in all ::
              (id in found && all[id] == found[id]) || (all[id].present && all[id].system == s.id)
  {
    hide IdOf;
    if files != [] {
      FoundPresent(found, s, disk, files[..|files| - 1]);
    }
  }

  /** Every row is present and belongs to one of the systems. */
  ghost predicate PresentIn(found: map<Id, Row>, systems: set<ByteString>) {
    forall id | id in found :: found[id].present && found[id].system in systems
  }

  lemma {:induction false} NextPresent(found: map<Id, Row>, s: System, root: Option<Entry>, disk: Disk,
                                       systems: set<ByteString>)
    requires PresentIn(found, systems)
    ensures PresentIn(NextFound(found, s, root, disk), systems + {s.id})
  {
    hide Found, Below;
    if root.Some? {
      FoundPresent(found, s, disk, Below(s, disk, s.romPath, root.value));
    }
  }

  lemma {:induction false} NonePresent()
    ensures PresentIn(map[], {})
  {
  }

  lemma {:induction false} AllFoundPresent(rows: seq<System>, roots: seq<Option<Entry>>, disk: Disk, n: nat)
    requires n <= |rows| == |roots|
    ensures PresentIn(AllFound(rows, roots, disk, n), Ids(rows, n))
  {
    hide *;
    if n == 0 {
      NoSystems(rows, roots, disk);
      NonePresent();
    } else {
      AllFoundPresent(rows, roots, disk, n - 1);
      AllFoundStep(rows, roots, disk, n - 1);
      NextPresent(AllFound(rows, roots, disk, n - 1), rows[n - 1], roots[n - 1], disk, Ids(rows, n - 1));
    }
  }

  lemma {:induction false} AllFoundKeyed(rows: seq<System>, roots: seq<Option<Entry>>, disk: Disk, n: nat)
    requires n <= |rows| == |roots|
    requires forall i | 0 <= i < n :: ValidSystem(rows[i].id) && (roots[i].Some? ==> NamesPlain(roots[i].value))
    ensures AllKeyed(AllFound(rows, roots, disk, n))
  {
    if n > 0 {
      AllFoundKeyed(rows, roots, disk, n - 1);
      AllFoundStep(rows, roots, disk, n - 1);
      hide Found, AllFound, Ids, AllKeyed, NamesPlain;
      if roots[n - 1].Some? {
        var s, dir := rows[n - 1], roots[n - 1].value;
        if dir.Dir? {
          FilesNamed(s, disk, s.romPath, dir, |dir.children|);
        }
        FoundKeyed(AllFound(rows, roots, disk, n - 1), s, disk, Below(s, disk, s.romPath, dir));
      }
    }
  }

  /** The games of a scanned system that are present are exactly those found, as found; other rows do not change. */
  lemma {:induction false} ScanExact(base: map<Id, Row>, rows: seq<System>, roots: seq<Option<Entry>>, disk: Disk)
    requires |roots| == |rows|
    ensures var found, scanned := AllFound(rows, roots, disk, |rows|), Ids(rows, |rows|);
            var games := Swept(base + found, scanned, found.Keys);
            && (forall id :: id in games && games[id].present && games[id].system in scanned <==> id in found)
            && (forall id | id in found :: games[id] == found[id])
            && (forall id | id in base && id !in found && base[id].system !in scanned ::
                 id in games && games[id] == base[id])
            && games.Keys == base.Keys + found.Keys
  {
    AllFoundPresent(rows, roots, disk, |rows|);
    hide AllFound, Ids;
  }

  /** Scanning the same files again changes nothing. */
  lemma {:induction false} RescanIdempotent(base: map<Id, Row>, found: map<Id, Row>, scanned: set<ByteString>)
    ensures var games := Swept(base + found, scanned, found.Keys);
            Swept(games + found, scanned, found.Keys) == games
  {
    var games := Swept(base + found, scanned, found.Keys);
    assert games + found == games;
  }

  /** A scan keeps every row keyed by its system and path and titled after its file. */
  lemma {:induction false} ScanKeyed(base: map<Id, Row>, rows: seq<System>, roots: seq<Option<Entry>>, disk: Disk)
    requires |roots| == |rows| && AllKeyed(base)
    requires forall i | 0 <= i < |rows| :: ValidSystem(rows[i].id) && (roots[i].Some? ==> NamesPlain(roots[i].value))
    ensures var found := AllFound(rows, roots, disk, |rows|);
            AllKeyed(Swept(base + found, Ids(rows, |rows|), found.Keys))
  {
    AllFoundKeyed(rows, roots, disk, |rows|);
    hide AllFound, Ids, IdOf, SortTitle, BaseName, ValidSystem;
  }

  /** So a game keeps its sort title across scans, unless two games collide under SHA-256. */
  lemma {:induction false} TitleKept(id: Id, row: Row, other: Row)
    requires Keyed(id, row) && Keyed(id, other)
    ensures row.sortTitle == other.sortTitle ||
            (Preimage(row.system, row.path) != Preimage(other.system, other.path) &&
             Sha256.Digest(Preimage(row.system, row.path)) == Sha256.Digest(Preimage(other.system, other.path)))
  {
    hide IdOf, SortTitle, BaseName, ValidSystem, Preimage, Sha256.Digest;
    SameIdSameGame(row.system, row.path, other.system, other.path);
  }
}
