/**
 The index of achievement hashes. A file that has not changed since it was indexed is skipped;
 files are told apart by size and modification time, playlists also by those of what they refer to.
 */
module RaScanner {
  import opened Bytes
  import opened Wrappers
  import opened GameId
  import JsonCompare
  import opened RaCatalog
  import opened JsonText
  import LibraryScan

  const HASH_VERSION: nat := 2
  const PATH_MAX: nat := 4096

  const PLAYLIST: string := "m3u"

  const EXTENSIONS: seq<string> := [
    "zip", "gb", "gbc", "gba", "nes", "fds", "sfc", "smc", "fig", "bs", "md", "gen", "bin",
    "cue", "chd", "pbp", "m3u", "iso", "gg", "sms", "sg", "pce", "ccd", "toc", "a26", "a78",
    "lnx", "ws", "wsc", "ngc", "vb", "col", "rom", "dsk", "tap", "cas", "adf", "ipf", "neo"
  ]

  /** What an identifier stands for: the system and the path below the ROM root. */
  datatype Game = Game(system: ByteString, path: ByteString)

  /** Size and modification time, for a playlist also those of what it refers to, when that is readable. */
  datatype Stamp = Stamp(size: int, mtime: int, dependency: Option<(nat, int)>)

  datatype RowStatus = Identified | Unmatched | UnsupportedSystem | HashError

  type Console = c: int | c > 0 witness 1

  /** A row of library_games, the time and the catalog generation of indexing aside. */
  datatype Row = Row(stamp: Stamp, console: Option<Console>, hash: Option<Hash>, game: Option<int>,
                     achievements: Option<int>,
                     version: nat, status: RowStatus)

  /** A file as it is now: what it refers to if it is a playlist, and what hashing it gives. */
  datatype File = File(size: int, mtime: int, refersTo: Option<(nat, int)>, hash: Option<Hash>)

  datatype Entry = Regular(file: File) | Dir(readable: bool, children: seq<Named>) | LinkOrGone | Other

  datatype Named = Named(name: ByteString, entry: Entry)

  datatype ScanResult = ScanResult(skipped: bool, status: RowStatus)

  datatype Outcome = Finished | CannotOpen | Canceled | Paused

  datatype Stats = Stats(processed: nat, skipped: nat, identified: nat, errors: nat)

  /** The text behind the last dot, upper and lower case being the same. */
  predicate HasExtension(path: ByteString, extension: string) {
    var dot := LibraryScan.LastDot(path);
    dot + 1 < |path| && JsonCompare.Lower(path[dot + 1..]) == Ascii(extension)
  }

  predicate Supported(path: ByteString) {
    exists i | 0 <= i < |EXTENSIONS| :: HasExtension(path, EXTENSIONS[i])
  }

  predicate Ignored(name: ByteString) {
    (name != [] && name[0] == LibraryScan.DOT_BYTE) || LibraryScan.Ignored(name)
  }

  method SupportedExtension(path: ByteString) returns (supported: bool)
    ensures supported <==> Supported(path)
  {
    for i := 0 to |EXTENSIONS|
      invariant forall k | 0 <= k < i :: !HasExtension(path, EXTENSIONS[k])
    {
      if HasExtension(path, EXTENSIONS[i]) {
        return true;
      }
    }
    return false;
  }

  /** What stands behind the last dot, whatever its case. */
  lemma ExtensionMeans(front: ByteString, tail: ByteString, extension: string)
    requires forall i | 0 <= i < |tail| :: tail[i] as int as char != '.'
    ensures !HasExtension(tail, extension)
    ensures HasExtension(front + Ascii(".") + tail, extension) <==>
            tail != [] && JsonCompare.Lower(tail) == Ascii(extension)
  {
    var path := front + Ascii(".") + tail;
    assert Ascii(".") == [LibraryScan.DOT_BYTE];
    assert path[|front|] == LibraryScan.DOT_BYTE && path[|front| + 1..] == tail;
    hide JsonCompare.Lower;
  }

  /** The kinds of files that hold games. */
  lemma SupportedMeans(front: ByteString, tail: ByteString)
    requires forall i | 0 <= i < |tail| :: tail[i] as int as char != '.'
    ensures !Supported(tail)
    ensures Supported(front + Ascii(".") + tail) <==>
            exists extension :: extension in [
                "zip", "gb", "gbc", "gba", "nes", "fds", "sfc", "smc", "fig", "bs", "md", "gen", "bin",
                "cue", "chd", "pbp", "m3u", "iso", "gg", "sms", "sg", "pce", "ccd", "toc", "a26", "a78",
                "lnx", "ws", "wsc", "ngc", "vb", "col", "rom", "dsk", "tap", "cas", "adf", "ipf", "neo"
              ] && tail != [] && JsonCompare.Lower(tail) == Ascii(extension)
  {
    forall i | 0 <= i < |EXTENSIONS|
      ensures !HasExtension(tail, EXTENSIONS[i])
      ensures HasExtension(front + Ascii(".") + tail, EXTENSIONS[i]) <==>
              tail != [] && JsonCompare.Lower(tail) == Ascii(EXTENSIONS[i])
    {
      ExtensionMeans(front, tail, EXTENSIONS[i]);
    }
    hide JsonCompare.Lower, HasExtension;
  }

  lemma IgnoredMeans(name: ByteString)
    ensures Ignored(name) <==>
            || (name != [] && name[0] as int as char == '.')
            || name in [Ascii("Imgs"), Ascii("images"), Ascii("Snaps")]
  {
    LibraryScan.WaysMean([], name);
  }

  function StampOf(game: Game, file: File): Stamp {
    Stamp(file.size, file.mtime, if HasExtension(game.path, PLAYLIST) then file.refersTo else None)
  }

  /** The file may be skipped at all: no playlist, or one whose dependency is known. */
  predicate Comparable(game: Game, stamp: Stamp) {
    HasExtension(game.path, PLAYLIST) ==> stamp.dependency.Some?
  }

  // ----- What a walk over a directory tree meets -----

  /** A game file, or something that is counted as an error. */
  datatype Met = Hit(game: Game, file: File) | Fault

  function Joined(directory: ByteString, name: ByteString): ByteString {
    directory + [SLASH] + name
  }

  /** What the first n entries of a directory bring, in the order they are read. */
  ghost function Meets(system: ByteString, path: ByteString, dir: Entry, n: nat): seq<Met>
    requires dir.Dir? && n <= |dir.children|
    decreases dir, 0, n
  {
    if n == 0 then []
    else Meets(system, path, dir, n - 1) + MeetsChild(system, path, dir.children[n - 1].name, dir.children[n - 1].entry)
  }

  ghost function MeetsBelow(system: ByteString, path: ByteString, entry: Entry): seq<Met>
    decreases entry, 1
  {
    if entry.Dir? && entry.readable then Meets(system, path, entry, |entry.children|) else []
  }

  ghost function MeetsChild(system: ByteString, path: ByteString, name: ByteString, entry: Entry): seq<Met>
    decreases entry, 2
  {
    if Ignored(name) then []
    else if |Joined(path, name)| >= PATH_MAX then [Fault]
    else
      match entry
      case LinkOrGone => [Fault]
      case Other => []
      case Dir(_, _) => MeetsBelow(system, Joined(path, name), entry)
      case Regular(file) => if Supported(Joined(path, name)) then [MeetsFile(system, Joined(path, name), file)] else []
  }

  function MeetsFile(system: ByteString, path: ByteString, file: File): Met {
    if !ValidSystem(system) then Fault
    else
      match NormalPath(path, PATH_MAX)
      case Err(_) => Fault
      case Ok(normal) => Hit(Game(system, normal), file)
  }

  /** Following these names down through directories that can be read leads to the file. */
  ghost predicate Reaches(entry: Entry, names: seq<ByteString>, file: File) {
    if names == [] then entry == Regular(file)
    else
      entry.Dir? && entry.readable && exists i ::
        0 <= i < |entry.children| && entry.children[i].name == names[0] &&
        Reaches(entry.children[i].entry, names[1..], file)
  }

  /** No name on the way begins with a dot or is one for pictures, and the paths fit 4096 bytes with their end. */
  ghost predicate Followed(path: ByteString, names: seq<ByteString>)
    decreases |names|
  {
    names != [] ==>
      && !(names[0] != [] && names[0][0] as int as char == '.')
      && names[0] !in [Ascii("Imgs"), Ascii("images"), Ascii("Snaps")]
      && |path + Ascii("/") + names[0]| < 4096
      && Followed(path + Ascii("/") + names[0], names[1..])
  }

  /** What the scan of a file is about: the identity its path has below the ROM root. */
  ghost predicate IsGame(system: ByteString, path: ByteString, game: Game) {
    Supported(path) && ValidSystem(system) && game.system == system && NormalPath(path, 4096) == Ok(game.path)
  }

  /** A game met is a file of the tree. */
  lemma {:induction false} MetIsThere(system: ByteString, path: ByteString, entry: Entry, game: Game, file: File)
    returns (names: seq<ByteString>)
    requires Hit(game, file) in MeetsBelow(system, path, entry)
    ensures Reaches(entry, names, file) && Followed(path, names)
    ensures IsGame(system, LibraryScan.PathOf(path, names), game)
    decreases entry, 1
  {
    hide Meets, IsGame, Reaches, Followed;
    names := MetAmong(system, path, entry, |entry.children|, game, file);
  }

  lemma {:induction false} MetAmong(system: ByteString, path: ByteString, dir: Entry, n: nat, game: Game, file: File)
    returns (names: seq<ByteString>)
    requires dir.Dir? && dir.readable && n <= |dir.children| && Hit(game, file) in Meets(system, path, dir, n)
    ensures Reaches(dir, names, file) && Followed(path, names)
    ensures IsGame(system, LibraryScan.PathOf(path, names), game)
    decreases dir, 0, n
  {
    hide MeetsChild, IsGame, Followed, LibraryScan.PathOf;
    if Hit(game, file) in Meets(system, path, dir, n - 1) {
      names := MetAmong(system, path, dir, n - 1, game, file);
    } else {
      var child := dir.children[n - 1];
      var rest := MetAtChild(system, path, child, game, file);
      names := [child.name] + rest;
      assert names[1..] == rest && dir.children[n - 1].name == names[0];
    }
  }

  lemma {:induction false} MetAtChild(system: ByteString, path: ByteString, child: Named, game: Game, file: File)
    returns (rest: seq<ByteString>)
    requires Hit(game, file) in MeetsChild(system, path, child.name, child.entry)
    ensures Reaches(child.entry, rest, file) && Followed(path, [child.name] + rest)
    ensures IsGame(system, LibraryScan.PathOf(path, [child.name] + rest), game)
    decreases child, 2
  {
    hide MeetsBelow, Reaches, Supported, ValidSystem, NormalPath;
    IgnoredMeans(child.name);
    hide Ignored;
    var full := Joined(path, child.name);
    assert Ascii("/") == [SLASH];
    if child.entry.Dir? {
      rest := MetIsThere(system, full, child.entry, game, file);
    } else {
      rest := [];
      assert Reaches(child.entry, [], file) by { ReachesItself(file); }
    }
    assert ([child.name] + rest)[1..] == rest;
  }

  lemma ReachesItself(file: File)
    ensures Reaches(Regular(file), [], file)
  {
  }

  /** And every file of the tree whose path is that of a game is met. */
  lemma {:induction false} ThereIsMet(system: ByteString, path: ByteString, entry: Entry, names: seq<ByteString>,
                                      game: Game, file: File)
    requires names != [] && Reaches(entry, names, file) && Followed(path, names)
    requires IsGame(system, LibraryScan.PathOf(path, names), game)
    ensures Hit(game, file) in MeetsBelow(system, path, entry)
    decreases |names|
  {
    hide Meets, Supported, ValidSystem, NormalPath;
    var i :|
      0 <= i < |entry.children| && entry.children[i].name == names[0] &&
      Reaches(entry.children[i].entry, names[1..], file);
    var child, full := entry.children[i], Joined(path, names[0]);
    IgnoredMeans(names[0]);
    assert Ascii("/") == [SLASH];
    assert full == path + Ascii("/") + names[0];
    hide Ignored, Joined;
    if |names| > 1 {
      ThereIsMet(system, full, child.entry, names[1..], game, file);
    } else {
      assert names[1..] == [] && LibraryScan.PathOf(path, names) == LibraryScan.PathOf(full, []);
    }
    assert Hit(game, file) in MeetsChild(system, path, child.name, child.entry);
    MetOfChild(system, path, entry, i, |entry.children|, Hit(game, file));
  }

  lemma {:induction false} MetOfChild(system: ByteString, path: ByteString, dir: Entry, i: nat, n: nat, met: Met)
    requires dir.Dir? && i < n <= |dir.children|
    requires met in MeetsChild(system, path, dir.children[i].name, dir.children[i].entry)
    ensures met in Meets(system, path, dir, n)
  {
    hide MeetsChild;
    if i < n - 1 {
      MetOfChild(system, path, dir, i, n - 1, met);
    }
  }

  /** A directory that cannot be opened is reported only when every directory above it ends with it. */
  ghost predicate EndsUnreadable(path: ByteString, entry: Entry)
    decreases entry
  {
    && entry.Dir?
    && (!entry.readable ||
        (entry.children != [] && EndsUnreadableChild(path, entry.children[|entry.children| - 1])))
  }

  ghost predicate EndsUnreadableChild(path: ByteString, child: Named)
    decreases child
  {
    && !Ignored(child.name) && |Joined(path, child.name)| < PATH_MAX && child.entry.Dir?
    && EndsUnreadable(Joined(path, child.name), child.entry)
  }

  function Faults(met: seq<Met>): (n: nat)
    ensures n <= |met|
  {
    if met == [] then 0
    else Faults(met[..|met| - 1]) + if met[|met| - 1].Fault? then 1 else 0
  }

  /** The last file met for a game. */
  function LastMet(met: seq<Met>, game: Game): (file: Option<File>)
    ensures file.Some? <==> exists f :: Hit(game, f) in met
    ensures file.Some? ==> Hit(game, file.value) in met
  {
    if met == [] then None
    else
      var last := met[|met| - 1];
      assert met == met[..|met| - 1] + [last];
      if last.Hit? && last.game == game then Some(last.file) else LastMet(met[..|met| - 1], game)
  }

  lemma {:induction false} FaultsJoin(a: seq<Met>, b: seq<Met>)
    ensures Faults(a + b) == Faults(a) + Faults(b)
  {
    if b == [] {
      assert a + b == a;
    } else {
      assert (a + b)[..|a + b| - 1] == a + b[..|b| - 1];
      FaultsJoin(a, b[..|b| - 1]);
    }
  }

  // ----- No game is met twice -----

  /** As on a file system: within a directory all names differ, and none is empty or contains a slash. */
  ghost predicate TreeNames(entry: Entry) {
    entry.Dir? ==>
      && (forall i | 0 <= i < |entry.children| ::
            entry.children[i].name != [] && SLASH !in entry.children[i].name && TreeNames(entry.children[i].entry))
      && (forall i, j | 0 <= i < j < |entry.children| :: entry.children[i].name != entry.children[j].name)
  }

  /** No game is met twice. */
  ghost predicate OncePerGame(met: seq<Met>) {
    forall i, j | 0 <= i < j < |met| && met[i].Hit? && met[j].Hit? :: met[i].game != met[j].game
  }

  /** The game is this file, or lies below this directory. */
  predicate Beneath(game: Game, path: ByteString) {
    ROM_ROOT + game.path == path || path + [SLASH] <= ROM_ROOT + game.path
  }

  ghost predicate AllBeneath(met: seq<Met>, path: ByteString) {
    forall i | 0 <= i < |met| && met[i].Hit? :: Beneath(met[i].game, path)
  }

  /** Every game lies below one of the first n names of the directory. */
  ghost predicate BeneathFirst(met: seq<Met>, path: ByteString, dir: Entry, n: nat)
    requires dir.Dir? && n <= |dir.children|
  {
    forall i | 0 <= i < |met| && met[i].Hit? ::
      exists k :: 0 <= k < n && Beneath(met[i].game, Joined(path, dir.children[k].name))
  }

  /** The name under which a game lies in a directory is the first segment of the rest of its path. */
  lemma BeneathFirstSegment(game: Game, path: ByteString, name: ByteString)
    requires Beneath(game, Joined(path, name)) && SLASH !in name
    ensures |path| + 1 <= |ROM_ROOT + game.path| && Split((ROM_ROOT + game.path)[|path| + 1..])[0] == name
  {
    var rest := (ROM_ROOT + game.path)[|path| + 1..];
    assert Joined(path, name)[|path| + 1..] == name;
    assert rest == name + rest[|name|..];
    SplitSegment(name, rest[|name|..]);
  }

  lemma BeneathAbove(game: Game, path: ByteString, name: ByteString)
    requires Beneath(game, Joined(path, name))
    ensures Beneath(game, path)
  {
    assert path + [SLASH] <= Joined(path, name);
  }

  /** What a walk over a resolved directory meets, it meets once. */
  lemma {:induction false} TreeOnce(system: ByteString, path: ByteString, dir: Entry)
    requires ROM_ROOT <= path && Solid(path[|ROM_ROOT|..]) && TreeNames(dir)
    ensures OncePerGame(MeetsBelow(system, path, dir)) && AllBeneath(MeetsBelow(system, path, dir), path)
    decreases dir, 1
  {
    hide Solid, Beneath, TreeNames, Meets;
    if dir.Dir? && dir.readable {
      EntriesOnce(system, path, dir, |dir.children|);
      var met := MeetsBelow(system, path, dir);
      forall i | 0 <= i < |met| && met[i].Hit?
        ensures Beneath(met[i].game, path)
      {
        var k :| 0 <= k < |dir.children| && Beneath(met[i].game, Joined(path, dir.children[k].name));
        BeneathAbove(met[i].game, path, dir.children[k].name);
      }
    }
  }

  lemma {:induction false} EntriesOnce(system: ByteString, path: ByteString, dir: Entry, n: nat)
    requires ROM_ROOT <= path && Solid(path[|ROM_ROOT|..]) && dir.Dir? && TreeNames(dir) && n <= |dir.children|
    ensures OncePerGame(Meets(system, path, dir, n)) && BeneathFirst(Meets(system, path, dir, n), path, dir, n)
    decreases dir, 0, n
  {
    if n > 0 {
      var child := dir.children[n - 1];
      assert child.name != [] && SLASH !in child.name && TreeNames(child.entry);
      hide Solid, Beneath, MeetsChild, OncePerGame, BeneathFirst, AllBeneath;
      EntriesOnce(system, path, dir, n - 1);
      ChildOnce(system, path, child.name, child.entry);
      OneMore(Meets(system, path, dir, n - 1), MeetsChild(system, path, child.name, child.entry), path, dir, n);
    } else {
      hide TreeNames, Solid, Beneath;
    }
  }

  lemma {:induction false} OneMore(earlier: seq<Met>, here: seq<Met>, path: ByteString, dir: Entry, n: nat)
    requires dir.Dir? && TreeNames(dir) && 0 < n <= |dir.children|
    requires OncePerGame(earlier) && BeneathFirst(earlier, path, dir, n - 1)
    requires OncePerGame(here) && AllBeneath(here, Joined(path, dir.children[n - 1].name))
    ensures OncePerGame(earlier + here) && BeneathFirst(earlier + here, path, dir, n)
  {
    hide Beneath;
    var met := earlier + here;
    forall i, j | 0 <= i < |earlier| && |earlier| <= j < |met| && met[i].Hit? && met[j].Hit?
      ensures met[i].game != met[j].game
    {
      var k :| 0 <= k < n - 1 && Beneath(met[i].game, Joined(path, dir.children[k].name));
      assert met[j] == here[j - |earlier|];
      if met[i].game == met[j].game {
        BeneathFirstSegment(met[j].game, path, dir.children[k].name);
        BeneathFirstSegment(met[j].game, path, dir.children[n - 1].name);
        assert false;
      }
    }
    forall i | 0 <= i < |met| && met[i].Hit?
      ensures exists k :: 0 <= k < n && Beneath(met[i].game, Joined(path, dir.children[k].name))
    {
      if i < |earlier| {
        var k :| 0 <= k < n - 1 && Beneath(met[i].game, Joined(path, dir.children[k].name));
      } else {
        assert met[i] == here[i - |earlier|];
      }
    }
  }

  lemma {:induction false} ChildOnce(system: ByteString, path: ByteString, name: ByteString, entry: Entry)
    requires ROM_ROOT <= path && Solid(path[|ROM_ROOT|..]) && name != [] && SLASH !in name && TreeNames(entry)
    ensures OncePerGame(MeetsChild(system, path, name, entry))
    ensures AllBeneath(MeetsChild(system, path, name, entry), Joined(path, name))
    decreases entry, 2
  {
    hide Solid, Beneath, TreeNames, MeetsBelow, Supported, NormalPath, ValidSystem, MeetsFile;
    if !Ignored(name) {
      var full := Joined(path, name);
      assert full[|ROM_ROOT|..] == path[|ROM_ROOT|..] + [SLASH] + name;
      SolidJoined(path[|ROM_ROOT|..], name);
      TreeOnce(system, full, entry);
      FileBeneath(system, full);
    }
  }

  lemma FileBeneath(system: ByteString, path: ByteString)
    requires ROM_ROOT <= path && Solid(path[|ROM_ROOT|..])
    ensures forall file :: MeetsFile(system, path, file).Hit? ==> Beneath(MeetsFile(system, path, file).game, path)
  {
    if NormalPath(path, PATH_MAX).Ok? {
      SolidKept(path, PATH_MAX);
      assert ROM_ROOT + path[|ROM_ROOT|..] == path;
    }
    hide Solid, NormalPath, ValidSystem;
  }

  /** Where a walk has got to: what it has met, from which rows and with which counts it started. */
  datatype Trip = Trip(met: seq<Met>, rows: map<Game, Row>, stats: Stats)

  // ----- The index -----

  class Index {
    var rows: map<Game, Row>
    var stats: Stats
    const catalog: Catalog
    /** The console of a system, if it has one. */
    const console: map<ByteString, Console>
    /** What hashing yields for a file of this size, modification time and dependency. */
    ghost const hashOf: (Game, int, int, Option<(nat, int)>) -> Option<Hash>

    constructor (catalog: Catalog, console: map<ByteString, Console>,
                 ghost hashOf: (Game, int, int, Option<(nat, int)>) -> Option<Hash>)
      ensures rows == map[] && this.catalog == catalog && this.console == console && this.hashOf == hashOf
      ensures Honest() && Fresh()
    {
      rows, stats := map[], Stats(0, 0, 0, 0);
      this.catalog, this.console, this.hashOf := catalog, console, hashOf;
    }

    /** Size and time determine the outcome of hashing, for a playlist together with what it refers to. */
    ghost predicate Determined(game: Game, file: File) {
      if HasExtension(game.path, "m3u") then
        file.refersTo.Some? ==> file.hash == hashOf(game, file.size, file.mtime, file.refersTo)
      else file.hash == hashOf(game, file.size, file.mtime, None)
    }

    ghost predicate AllDetermined(met: seq<Met>) {
      forall i | 0 <= i < |met| :: met[i].Hit? ==> Determined(met[i].game, met[i].file)
    }

    /** The row of a file that is hashed and looked up now. A game number that is not positive is not stored. */
    function Indexed(game: Game, stamp: Stamp, hash: Option<Hash>): Row
      reads catalog
    {
      if game.system !in console then Row(stamp, None, None, None, None, HASH_VERSION, UnsupportedSystem)
      else
        var id := console[game.system];
        match hash
        case None => Row(stamp, Some(id), None, None, None, HASH_VERSION, HashError)
        case Some(h) =>
          match catalog.Resolved(id, h)
          case None => Row(stamp, Some(id), Some(h), None, None, HASH_VERSION, Unmatched)
          case Some((found, achievements)) =>
            if found > 0 then Row(stamp, Some(id), Some(h), Some(found), Some(achievements), HASH_VERSION, Identified)
            else Row(stamp, Some(id), Some(h), None, None, HASH_VERSION, Identified)
    }

    /**
     What the row of a hashed file says: its system's console and its hash, if there are these, and the game that
     the catalog has for them.
     */
    lemma IndexedMeans(game: Game, file: File)
      ensures var row := IndexedFile(game, file);
              && row.console == (if game.system in console then Some(console[game.system]) else None)
              && row.hash == (if game.system in console then file.hash else None)
              && (row.hash.None? ==>
                    row.game == None && row.achievements == None &&
                    row.status == if game.system in console then HashError else UnsupportedSystem)
              && (row.hash.Some? ==>
                    (exists id, count :: catalog.Resolved(console[game.system], row.hash.value) == Some((id, count)) &&
                       row.status == Identified && row.game == (if id > 0 then Some(id) else None) &&
                       row.achievements == if id > 0 then Some(count) else None) ||
                    (catalog.Resolved(console[game.system], row.hash.value) == None &&
                     row.status == Unmatched && row.game == None && row.achievements == None))
    {
    }

    function IndexedFile(game: Game, file: File): Row
      reads catalog
    {
      Indexed(game, StampOf(game, file), file.hash)
    }

    /** The row is taken for that of the file as it is now. */
    predicate Matches(row: Row, stamp: Stamp) {
      row.stamp == stamp && row.version == HASH_VERSION
    }

    /** A scan without force takes the row in the table as it is. */
    predicate Skippable(before: map<Game, Row>, game: Game, file: File) {
      Comparable(game, StampOf(game, file)) && game in before && Matches(before[game], StampOf(game, file))
    }

    /** The row a scan leaves. */
    function Scanned(before: map<Game, Row>, game: Game, file: File, force: bool): Row
      reads catalog
    {
      if !force && Skippable(before, game, file) then before[game] else IndexedFile(game, file)
    }

    // ----- What a row says, and whether that is still so -----

    /** Console and hash are those of the file with that stamp. No catalog has a part in this. */
    ghost predicate HonestRow(game: Game, row: Row) {
      row.version == HASH_VERSION && Comparable(game, row.stamp) ==>
        if game.system !in console then row == Row(row.stamp, None, None, None, None, HASH_VERSION, UnsupportedSystem)
        else
          && row.console == Some(console[game.system])
          && row.hash == hashOf(game, row.stamp.size, row.stamp.mtime, row.stamp.dependency)
          && (row.hash.None? ==> row == Row(row.stamp, row.console, None, None, None, HASH_VERSION, HashError))
    }

    ghost predicate HonestRows(before: map<Game, Row>) {
      forall game | game in before :: HonestRow(game, before[game])
    }

    /** Kept by every scan under any catalog, and by every change of the catalog. */
    ghost predicate Honest()
      reads `rows
    {
      HonestRows(rows)
    }

    /** Looking the stored hash up in the catalog as it is now gives the stored outcome. */
    predicate UpToDate(row: Row)
      reads catalog
    {
      row.console.Some? && row.hash.Some? ==>
        match catalog.Resolved(row.console.value, row.hash.value)
        case None => row.status == Unmatched && row.game == None && row.achievements == None
        case Some((found, achievements)) =>
          && row.status == Identified
          && row.game == (if found > 0 then Some(found) else None)
          && row.achievements == (if found > 0 then Some(achievements) else None)
    }

    ghost predicate FreshRows(before: map<Game, Row>)
      reads catalog
    {
      forall game | game in before && before[game].version == HASH_VERSION && Comparable(game, before[game].stamp) ::
        UpToDate(before[game])
    }

    /** As it is while the catalog does not change. */
    ghost predicate Fresh()
      reads `rows, catalog
    {
      FreshRows(rows)
    }

    /**
     Skipping a file gives what a forced scan gives exactly when the row that would stand in for it is up to
     date: the stored hash still leads to the stored game in the catalog of today.
     */
    lemma SkipAgrees(before: map<Game, Row>, game: Game, file: File)
      requires Determined(game, file) && (game in before ==> HonestRow(game, before[game]))
      ensures Scanned(before, game, file, false) == Scanned(before, game, file, true) <==>
              (Skippable(before, game, file) ==> UpToDate(before[game]))
    {
      if Skippable(before, game, file) {
        RowIsIndexed(game, before[game]);
      }
    }

    lemma RowIsIndexed(game: Game, row: Row)
      requires HonestRow(game, row) && row.version == HASH_VERSION && Comparable(game, row.stamp)
      ensures row == Indexed(game, row.stamp, row.hash) <==> UpToDate(row)
    {
    }

    /** A row that indexing writes is honest and up to date. */
    lemma IndexedIsFresh(game: Game, file: File)
      requires Determined(game, file)
      ensures HonestRow(game, IndexedFile(game, file)) && UpToDate(IndexedFile(game, file))
    {
    }

    /** Whether there is a row for the file as it is, and the status that a skipped file is reported with. */
    method Unchanged(game: Game, stamp: Stamp) returns (status: Status, same: bool, reported: RowStatus)
      ensures status == Done ==> (same <==> game in rows && Matches(rows[game], stamp))
      ensures status == Done && same ==> reported == if rows[game].status == Identified then Identified else Unmatched
      ensures status == Done || status == Failed
    {
      same, reported := false, Unmatched;
      var ok: bool := *;
      if !ok {
        return Failed, same, reported;
      }
      if game in rows {
        var row := rows[game];
        var sameDependency := if stamp.dependency.None? then row.stamp.dependency.None?
            else row.stamp.dependency == stamp.dependency;
        same := row.stamp.size == stamp.size && row.stamp.mtime == stamp.mtime && row.version == HASH_VERSION &&
            sameDependency;
        reported := if row.status == Identified then Identified else Unmatched;
      }
      return Done, same, reported;
    }

    method Store(game: Game, row: Row) returns (status: Status)
      modifies `rows
      ensures status == Done ==> rows == old(rows)[game := row]
      ensures status != Done ==> rows == old(rows)
      ensures status == Done || status == Failed
    {
      var ok: bool := *;
      if !ok {
        return Failed;
      }
      rows := rows[game := row];
      return Done;
    }

    /**
     Skips the file or writes the row that hashing and looking up give now. Without force a file is skipped
     exactly when its row was written by this version for a file of its size and time and, for a playlist, of its
     dependency, which is known.
     */
    method ScanGame(game: Game, file: File, force: bool) returns (status: Status, result: ScanResult)
      modifies `rows
      ensures status == Done ==> rows == old(rows)[game := Scanned(old(rows), game, file, force)]
      ensures status == Done ==> (result.skipped <==> !force && Skippable(old(rows), game, file))
      ensures status == Done ==> (result.status == Identified <==> rows[game].status == Identified)
      ensures status == Done ==>
                (result.skipped <==>
                 && !force && game in old(rows)
                 && old(rows)[game].stamp.size == file.size && old(rows)[game].stamp.mtime == file.mtime
                 && old(rows)[game].version == 2
                 && (if HasExtension(game.path, "m3u") then
                       file.refersTo.Some? && old(rows)[game].stamp.dependency == file.refersTo
                     else old(rows)[game].stamp.dependency == None))
      ensures status == Done && result.skipped ==> rows == old(rows)
      ensures status == Done && !result.skipped ==>
                && result.status == rows[game].status
                && rows[game].stamp.size == file.size && rows[game].stamp.mtime == file.mtime
                && rows[game].version == 2
                && rows[game].stamp.dependency == if HasExtension(game.path, "m3u") then file.refersTo else None
      ensures status != Done ==> rows == old(rows)
    {
      hide HasExtension;
      result := ScanResult(false, HashError);
      var readable: bool := *;
      if !readable {
        return Failed, result;
      }
      var stamp := StampOf(game, file);
      if !force && Comparable(game, stamp) {
        var same, reported;
        status, same, reported := Unchanged(game, stamp);
        if status != Done {
          return;
        }
        if same {
          return Done, ScanResult(true, reported);
        }
      }
      if game.system !in console {
        result := ScanResult(false, UnsupportedSystem);
        status := Store(game, Row(stamp, None, None, None, None, HASH_VERSION, UnsupportedSystem));
        return;
      }
      var id := console[game.system];
      if file.hash.None? {
        status := Store(game, Row(stamp, Some(id), None, None, None, HASH_VERSION, HashError));
        return;
      }
      var found, achievements;
      status, found, achievements := catalog.Resolve(id, file.hash.value);
      if status != Done && status != NotFound {
        return;
      }
      result := ScanResult(false, if status == Done then Identified else Unmatched);
      var listed := status == Done && found > 0;
      status := Store(game, Row(stamp, Some(id), file.hash, if listed then Some(found) else None,
                                if listed then Some(achievements) else None, HASH_VERSION, result.status));
    }

    /** The rows after scanning everything met, one file after the other. */
    function ScannedAll(before: map<Game, Row>, met: seq<Met>, force: bool): map<Game, Row>
      reads catalog
    {
      if met == [] then before
      else
        var earlier := ScannedAll(before, met[..|met| - 1], force);
        match met[|met| - 1]
        case Fault => earlier
        case Hit(game, file) => earlier[game := Scanned(earlier, game, file, force)]
    }

    lemma {:induction false} ScannedJoin(before: map<Game, Row>, a: seq<Met>, b: seq<Met>, force: bool)
      ensures ScannedAll(before, a + b, force) == ScannedAll(ScannedAll(before, a, force), b, force)
    {
      hide Scanned;
      if b == [] {
        assert a + b == a;
      } else {
        assert (a + b)[..|a + b| - 1] == a + b[..|b| - 1];
        ScannedJoin(before, a, b[..|b| - 1], force);
      }
    }

    /** A game that is met by a forced scan gets the row of its file, whatever was there; every other row stays. */
    lemma {:induction false} IndexedRow(before: map<Game, Row>, met: seq<Met>, game: Game)
      ensures var after := ScannedAll(before, met, true);
              match LastMet(met, game)
              case Some(file) => game in after && after[game] == IndexedFile(game, file)
              case None => (game in after <==> game in before) && (game in before ==> after[game] == before[game])
    {
      hide IndexedFile;
      if met != [] {
        IndexedRow(before, met[..|met| - 1], game);
      }
    }

    /** While the catalog does not change, a scan of any tree gives the same with and without force. */
    lemma {:induction false} FreshAgrees(before: map<Game, Row>, met: seq<Met>)
      requires HonestRows(before) && FreshRows(before) && AllDetermined(met)
      ensures ScannedAll(before, met, false) == ScannedAll(before, met, true)
      ensures HonestRows(ScannedAll(before, met, true)) && FreshRows(ScannedAll(before, met, true))
    {
      if met != [] {
        FreshAgrees(before, met[..|met| - 1]);
        var earlier, last := ScannedAll(before, met[..|met| - 1], true), met[|met| - 1];
        hide ScannedAll, Scanned, Skippable, HonestRow, UpToDate, Determined, IndexedFile;
        AgreesNext(before, met);
        if last.Hit? {
          FreshNext(earlier, last.game, last.file);
        }
      }
    }

    lemma AgreesNext(before: map<Game, Row>, met: seq<Met>)
      requires met != []
      ensures forall force ::
                ScannedAll(before, met, force) ==
                var earlier := ScannedAll(before, met[..|met| - 1], force);
                match met[|met| - 1]
                case Fault => earlier
                case Hit(game, file) => earlier[game := Scanned(earlier, game, file, force)]
    {
      hide Scanned;
    }

    lemma FreshNext(before: map<Game, Row>, game: Game, file: File)
      requires HonestRows(before) && FreshRows(before) && Determined(game, file)
      ensures Scanned(before, game, file, false) == Scanned(before, game, file, true)
      ensures var after := before[game := Scanned(before, game, file, true)];
              HonestRows(after) && FreshRows(after)
    {
      SkipAgrees(before, game, file);
      IndexedIsFresh(game, file);
      hide HonestRow, UpToDate, Indexed;
    }

    lemma {:induction false} ScannedRow(before: map<Game, Row>, met: seq<Met>, game: Game, force: bool)
      requires OncePerGame(met)
      ensures var after := ScannedAll(before, met, force);
              match LastMet(met, game)
              case Some(file) => game in after && after[game] == Scanned(before, game, file, force)
              case None => (game in after <==> game in before) && (game in before ==> after[game] == before[game])
    {
      if met != [] {
        var rest, last := met[..|met| - 1], met[|met| - 1];
        ScannedRow(before, rest, game, force);
        if last.Hit? {
          assert forall f :: Hit(last.game, f) !in rest;
          ScannedRow(before, rest, last.game, force);
        }
        hide IndexedFile;
      }
    }

    lemma MetAgrees(before: map<Game, Row>, met: seq<Met>)
      requires HonestRows(before) && AllDetermined(met) && OncePerGame(met)
      ensures ScannedAll(before, met, false) == ScannedAll(before, met, true) <==>
              forall i | 0 <= i < |met| && met[i].Hit? ::
                Skippable(before, met[i].game, met[i].file) ==> UpToDate(before[met[i].game])
    {
      var skipped, forced := ScannedAll(before, met, false), ScannedAll(before, met, true);
      forall game
        ensures game in skipped <==> game in forced
        ensures LastMet(met, game).None? && game in skipped ==> skipped[game] == forced[game]
      {
        ScannedRow(before, met, game, false);
        ScannedRow(before, met, game, true);
      }
      forall i | 0 <= i < |met| && met[i].Hit?
        ensures met[i].game in skipped && met[i].game in forced
        ensures skipped[met[i].game] == forced[met[i].game] <==>
                (Skippable(before, met[i].game, met[i].file) ==> UpToDate(before[met[i].game]))
      {
        MetOnce(met, i);
        ScannedRow(before, met, met[i].game, false);
        ScannedRow(before, met, met[i].game, true);
        SkipAgrees(before, met[i].game, met[i].file);
      }
      hide *;
      SameRows(skipped, forced, met);
    }

    /**
     After any change of the catalog: an unforced scan of a tree leaves what a forced one leaves exactly when
     every row that it skips by is up to date in the catalog of today.
     */
    lemma TreeAgrees(before: map<Game, Row>, system: ByteString, path: ByteString, dir: Entry)
      requires ROM_ROOT <= path && Solid(path[|ROM_ROOT|..]) && dir.Dir? && TreeNames(dir)
      requires HonestRows(before) && AllDetermined(MeetsBelow(system, path, dir))
      ensures var met := MeetsBelow(system, path, dir);
              ScannedAll(before, met, false) == ScannedAll(before, met, true) <==>
              forall i | 0 <= i < |met| && met[i].Hit? ::
                Skippable(before, met[i].game, met[i].file) ==> UpToDate(before[met[i].game])
    {
      hide *;
      TreeOnce(system, path, dir);
      MetAgrees(before, MeetsBelow(system, path, dir));
    }

    lemma MetOnce(met: seq<Met>, i: nat)
      requires OncePerGame(met) && i < |met| && met[i].Hit?
      ensures LastMet(met, met[i].game) == Some(met[i].file)
    {
      var file := LastMet(met, met[i].game);
      assert met[i] == Hit(met[i].game, met[i].file) && met[i] in met;
      assert Hit(met[i].game, file.value) in met;
    }

    lemma SameRows(a: map<Game, Row>, b: map<Game, Row>, met: seq<Met>)
      requires a.Keys == b.Keys
      requires forall i | 0 <= i < |met| && met[i].Hit? :: met[i].game in a
      requires forall game | game in a && LastMet(met, game).None? :: a[game] == b[game]
      ensures a == b <==> forall i | 0 <= i < |met| && met[i].Hit? :: a[met[i].game] == b[met[i].game]
    {
      if forall i | 0 <= i < |met| && met[i].Hit? :: a[met[i].game] == b[met[i].game] {
        forall game | game in a
          ensures a[game] == b[game]
        {
          var file := LastMet(met, game);
          if file.Some? {
            var i :| 0 <= i < |met| && met[i] == Hit(game, file.value);
          }
        }
      }
    }

    /**
     After an import a row of the imported console is up to date exactly when it says what the list says: the
     game the hash is listed under, or unmatched if it is not listed.
     */
    lemma {:induction false} UpToDateAfterImport(row: Row, hash: Hash, hashes: map<HashKey, int>,
                                                 games: map<int, RaGame>,
                                                 id: Console, items: seq<Json>)
      requires row.console == Some(id) && row.hash == Some(hash) && DistinctIds(items, id)
      requires TableOf(items, id, |items|).Some?
      requires catalog.hashes == Replaced(hashes, id, TableOf(items, id, |items|).value)
      requires catalog.games == Cleaned(GamesOf(games, items, id, |items|), id, catalog.hashes, catalog.referenced)
      ensures forall i | 0 <= i < |items| :: ReadItem(items[i], id).Some?
      ensures UpToDate(row) <==>
              if exists i :: 0 <= i < |items| && Lists(items[i], id, hash) then
                forall i | 0 <= i < |items| && Lists(items[i], id, hash) ::
                  && row.status == Identified
                  && row.game == (if ReadItem(items[i], id).value.id > 0 then Some(ReadItem(items[i], id).value.id)
                       else None)
                  && row.achievements == if row.game.Some? then Some(ReadItem(items[i], id).value.achievements)
                       else None
              else row.status == Unmatched && row.game == None && row.achievements == None
    {
      hide TableOf, GamesOf, DistinctIds, Replaced, Cleaned, ReadItem, Lists;
      AllRead(items, id, |items|);
      forall i | 0 <= i < |items| && Lists(items[i], id, hash)
        ensures catalog.Resolved(id, hash) ==
                Some((ReadItem(items[i], id).value.id, ReadItem(items[i], id).value.achievements))
      {
        ImportListed(catalog, hashes, games, id, items, i, hash);
      }
      if forall i | 0 <= i < |items| :: !Lists(items[i], id, hash) {
        ImportForgets(catalog, hashes, id, items, hash);
      }
    }

    /** What the walk has met so far is scanned, except where more errors are counted than it meets faults. */
    ghost predicate Reached(trip: Trip, force: bool)
      reads `rows, `stats, catalog
    {
      && (force ==> stats.skipped == trip.stats.skipped)
      && stats.processed + Faults(trip.met) == trip.stats.processed + |trip.met|
      && stats.errors >= trip.stats.errors + Faults(trip.met)
      && (stats.errors == trip.stats.errors + Faults(trip.met) ==> rows == ScannedAll(trip.rows, trip.met, force))
    }

    lemma {:induction false} SetOut(force: bool)
      ensures Reached(Trip([], rows, stats), force)
    {
      assert ScannedAll(rows, [], force) == rows;
    }

    /** A walk continued where another one ended. */
    lemma {:induction false} WalkOn(first: Trip, second: Trip, force: bool)
      requires Reached(second, force)
      requires second.stats.errors >= first.stats.errors + Faults(first.met)
      requires second.stats.errors == first.stats.errors + Faults(first.met) ==>
                 second.rows == ScannedAll(first.rows, first.met, force)
      requires second.stats.processed + Faults(first.met) == first.stats.processed + |first.met|
      requires force ==> second.stats.skipped == first.stats.skipped
      ensures Reached(first.(met := first.met + second.met), force)
    {
      FaultsJoin(first.met, second.met);
      ScannedJoin(first.rows, first.met, second.met, force);
      hide Faults, ScannedAll, Scanned;
    }

    lemma {:induction false} OneFault(trip: Trip, force: bool)
      requires trip.met == [Fault] && rows == trip.rows
      requires stats == trip.stats.(errors := trip.stats.errors + 1)
      ensures Reached(trip, force)
    {
      assert [Fault][..0] == [];
      assert Faults([]) == 0 && ScannedAll(trip.rows, [], force) == trip.rows;
    }

    lemma {:induction false} OneFile(trip: Trip, game: Game, file: File, force: bool)
      requires trip.met == [Hit(game, file)]
      requires stats.processed == trip.stats.processed + 1 && (force ==> stats.skipped == trip.stats.skipped)
      requires stats.errors >= trip.stats.errors
      requires stats.errors == trip.stats.errors ==> rows == trip.rows[game := Scanned(trip.rows, game, file, force)]
      ensures Reached(trip, force)
    {
      hide Scanned;
      assert trip.met[..0] == [];
      assert Faults([]) == 0 && ScannedAll(trip.rows, [], force) == trip.rows;
    }

    lemma ScanIsHonest(before: map<Game, Row>, game: Game, file: File, force: bool)
      requires HonestRows(before) && Determined(game, file)
      ensures HonestRows(before[game := Scanned(before, game, file, force)])
      ensures FreshRows(before) ==> FreshRows(before[game := Scanned(before, game, file, force)])
    {
      IndexedIsFresh(game, file);
      hide HonestRow, IndexedFile, UpToDate;
    }

    lemma MetIsDetermined(system: ByteString, path: ByteString, file: File)
      ensures var met := MeetsFile(system, path, file);
              && met == (match (ValidSystem(system), NormalPath(path, PATH_MAX))
                         case (true, Ok(normal)) => Hit(Game(system, normal), file)
                         case _ => Fault)
              && (met.Hit? && AllDetermined([met]) ==> Determined(met.game, file))
    {
      var met := MeetsFile(system, path, file);
      assert [met][0] == met;
      hide Determined, ValidSystem, NormalPath;
    }

    /** One game file: hashed or skipped, and counted. */
    method ScanFile(system: ByteString, path: ByteString, file: File, force: bool)
      requires Honest() && AllDetermined([MeetsFile(system, path, file)])
      modifies `rows, `stats
      ensures Reached(Trip([MeetsFile(system, path, file)], old(rows), old(stats)), force)
      ensures Honest() && (old(Fresh()) ==> Fresh())
    {
      hide MeetsFile, NormalPath, ValidSystem, IdOf, AllDetermined, Determined, HasExtension;
      hide ScannedAll, Scanned, Skippable, HonestRows, FreshRows, Faults, Reached;
      ghost var met := MeetsFile(system, path, file);
      MetIsDetermined(system, path, file);
      var made := Create(system, path, ID_LENGTH + 1, PATH_MAX);
      if made.Err? {
        stats := stats.(errors := stats.errors + 1);
        OneFault(Trip([met], old(rows), old(stats)), force);
        return;
      }
      var game := Game(system, made.value.1);
      ScanIsHonest(rows, game, file, force);
      var status, result := ScanGame(game, file, force);
      stats := stats.(processed := stats.processed + 1);
      if status != Done {
        stats := stats.(errors := stats.errors + 1);
      } else {
        stats := stats.(skipped := stats.skipped + if result.skipped then 1 else 0,
                        identified := stats.identified + if result.status == Identified then 1 else 0);
      }
      OneFile(Trip([met], old(rows), old(stats)), game, file, force);
    }

    method ScanEntry(system: ByteString, path: ByteString, child: Named, force: bool) returns (outcome: Outcome)
      requires Honest() && AllDetermined(MeetsChild(system, path, child.name, child.entry))
      modifies `rows, `stats
      ensures outcome == Finished || outcome == CannotOpen ==>
                Reached(Trip(MeetsChild(system, path, child.name, child.entry), old(rows), old(stats)), force)
      ensures outcome == Finished || outcome == CannotOpen ==>
                (outcome == CannotOpen <==> EndsUnreadableChild(path, child))
      ensures Honest() && (old(Fresh()) ==> Fresh())
      decreases child, 1
    {
      hide Honest, Fresh, Reached, Faults, ScannedAll, Supported, Ignored, MeetsFile, NormalPath, MeetsBelow;
      SetOut(force);
      if Ignored(child.name) {
        return Finished;
      }
      var full := Joined(path, child.name);
      if |full| >= PATH_MAX || child.entry.LinkOrGone? {
        stats := stats.(errors := stats.errors + 1);
        OneFault(Trip([Fault], old(rows), old(stats)), force);
        return Finished;
      }
      match child.entry {
        case Other => return Finished;
        case Dir(_, _) => outcome := ScanDirectory(system, full, child.entry, force);
        case Regular(file) =>
          var supported := SupportedExtension(full);
          if supported {
            ScanFile(system, full, file, force);
          }
          return Finished;
      }
    }

    method Interruption() returns (outcome: Outcome)
      ensures outcome != CannotOpen
    {
      var canceled: bool, active: bool := *, *;
      return if canceled then Canceled else if active then Paused else Finished;
    }

    /** A directory entry by entry, stopping when the scan is canceled or paused. */
    method ScanDirectory(system: ByteString, path: ByteString, dir: Entry, force: bool) returns (outcome: Outcome)
      requires dir.Dir? && Honest() && AllDetermined(MeetsBelow(system, path, dir))
      modifies `rows, `stats
      ensures outcome == Finished || outcome == CannotOpen ==>
                Reached(Trip(MeetsBelow(system, path, dir), old(rows), old(stats)), force)
      ensures outcome == Finished || outcome == CannotOpen ==> (outcome == CannotOpen <==> EndsUnreadable(path, dir))
      ensures Honest() && (old(Fresh()) ==> Fresh())
      decreases dir, 0
    {
      hide Honest, Fresh, Reached, Faults, ScannedAll, MeetsChild, EndsUnreadableChild, AllDetermined;
      SetOut(force);
      outcome := Interruption();
      if outcome != Finished {
        return;
      }
      if !dir.readable {
        return CannotOpen;
      }
      var at := 0;
      while at < |dir.children|
        invariant 0 <= at <= |dir.children| && (outcome == Finished || outcome == CannotOpen)
        invariant Honest() && (old(Fresh()) ==> Fresh())
        invariant Reached(Trip(Meets(system, path, dir, at), old(rows), old(stats)), force)
        invariant outcome == CannotOpen <==> at > 0 && EndsUnreadableChild(path, dir.children[at - 1])
      {
        outcome := Interruption();
        if outcome != Finished {
          return;
        }
        var child := dir.children[at];
        ghost var before := Trip(Meets(system, path, dir, at), old(rows), old(stats));
        ghost var here := Trip(MeetsChild(system, path, child.name, child.entry), rows, stats);
        ChildDetermined(system, path, dir, at);
        ReachedCounts(before, force);
        outcome := ScanEntry(system, path, child, force);
        if outcome == Canceled || outcome == Paused {
          return;
        }
        WalkOn(before, here, force);
        at := at + 1;
      }
    }

    lemma {:induction false} ReachedCounts(trip: Trip, force: bool)
      requires Reached(trip, force)
      ensures stats.errors >= trip.stats.errors + Faults(trip.met)
      ensures stats.errors == trip.stats.errors + Faults(trip.met) ==> rows == ScannedAll(trip.rows, trip.met, force)
      ensures stats.processed + Faults(trip.met) == trip.stats.processed + |trip.met|
      ensures force ==> stats.skipped == trip.stats.skipped
    {
    }

    lemma {:induction false} ChildDetermined(system: ByteString, path: ByteString, dir: Entry, n: nat)
      requires dir.Dir? && n < |dir.children| && AllDetermined(Meets(system, path, dir, |dir.children|))
      ensures AllDetermined(MeetsChild(system, path, dir.children[n].name, dir.children[n].entry))
    {
      hide MeetsChild, Determined;
      PartDetermined(system, path, dir, n + 1, |dir.children|);
      var earlier, child := Meets(system, path, dir, n), dir.children[n];
      var here := MeetsChild(system, path, child.name, child.entry);
      assert forall i | 0 <= i < |here| :: (earlier + here)[|earlier| + i] == here[i];
    }

    lemma {:induction false} PartDetermined(system: ByteString, path: ByteString, dir: Entry, n: nat, m: nat)
      requires dir.Dir? && n <= m <= |dir.children| && AllDetermined(Meets(system, path, dir, m))
      ensures AllDetermined(Meets(system, path, dir, n))
    {
      hide MeetsChild, Determined;
      if n < m {
        var earlier := Meets(system, path, dir, m - 1);
        assert forall i | 0 <= i < |earlier| :: Meets(system, path, dir, m)[i] == earlier[i];
        PartDetermined(system, path, dir, n, m - 1);
      }
    }

    /**
     A whole tree. When nothing went wrong beyond the faults the tree itself has, the rows are those of
     scanning everything met. If the rows were fresh, that is hashing everything anew, with or without force,
     whatever scans and edits came before.
     */
    method ScanTree(system: ByteString, resolved: Option<(ByteString, Entry)>, force: bool) returns (outcome: Outcome)
      requires Honest()
      requires resolved.Some? && resolved.value.1.Dir? ==>
                 AllDetermined(MeetsBelow(system, resolved.value.0, resolved.value.1))
      modifies `rows, `stats
      ensures Honest() && (old(Fresh()) ==> Fresh())
      ensures resolved.None? || !(ROM_ROOT <= resolved.value.0) || !resolved.value.1.Dir? ==>
                outcome == CannotOpen && rows == old(rows)
      ensures resolved.Some? && ROM_ROOT <= resolved.value.0 && resolved.value.1.Dir? &&
                (outcome == Finished || outcome == CannotOpen) ==>
                && var (path, dir) := resolved.value;
                && var met := MeetsBelow(system, path, dir);
                && (outcome == CannotOpen <==> EndsUnreadable(path, dir))
                && (force ==> stats.skipped == 0) && stats.processed == |met| - Faults(met)
                && stats.errors >= Faults(met)
                && (stats.errors == Faults(met) ==>
                      && rows == ScannedAll(old(rows), met, force)
                      && (force || old(Fresh()) ==> rows == ScannedAll(old(rows), met, true)))
    {
      hide Faults, ScannedAll, AllDetermined, MeetsBelow, EndsUnreadable, HonestRows, FreshRows;
      stats := Stats(0, 0, 0, 0);
      if resolved.None? || !(ROM_ROOT <= resolved.value.0) || !resolved.value.1.Dir? {
        return CannotOpen;
      }
      if Fresh() {
        FreshAgrees(rows, MeetsBelow(system, resolved.value.0, resolved.value.1));
      }
      outcome := ScanDirectory(system, resolved.value.0, resolved.value.1, force);
    }
  }
}
