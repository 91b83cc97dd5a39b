/** The achievement catalog: which content hash belongs to which game, one console at a time. */
module RaCatalog {
  import opened Bytes
  import opened Wrappers
  import opened JsonNumber
  import opened JsonText
  import JsonCompare

  type Hash = ByteString

  datatype HashKey = HashKey(console: int, hash: Hash)

  datatype RaGame = RaGame(console: int, title: ByteString, official: bool, achievements: int)

  datatype Status = Done | Misuse | Corrupt | NotFound | Failed

  const ID_KEY := Ascii("ID")
  const CONSOLE_KEY := Ascii("ConsoleID")
  const TITLE_KEY := Ascii("Title")
  const COUNT_KEY := Ascii("NumAchievements")
  const HASHES_KEY := Ascii("Hashes")

  // ----- The list of a provider -----

  datatype Item = Item(id: int, title: ByteString, achievements: int, hashes: seq<Json>)

  function Field(item: Json, key: ByteString): Option<Json> {
    if !item.Object? then None
    else
      var at := JsonCompare.Find(item.members, key, true, 0);
      if at.Some? then Some(item.members[at.value].value) else None
  }

  /** An entry with all fields in order, for the console that is imported. */
  function ReadItem(item: Json, console: int): (read: Option<Item>)
    ensures read.Some? ==> read.value.achievements > 0 && read.value.hashes != []
  {
    match (Field(item, ID_KEY), Field(item, CONSOLE_KEY), Field(item, TITLE_KEY), Field(item, COUNT_KEY),
           Field(item, HASHES_KEY))
    case (Some(Number(id)), Some(Number(owner)), Some(String(title)), Some(Number(count)), Some(Array(hashes))) =>
      if ToInt(owner) == console && title != [] && ToInt(count) > 0 && hashes != []
      then Some(Item(ToInt(id), title, ToInt(count), hashes)) else None
    case _ => None
  }

  /** The first member of the object with this name, upper and lower case being different. */
  ghost predicate HasField(item: Json, name: string, value: Json) {
    item.Object? && exists i ::
      && 0 <= i < |item.members| && item.members[i].key == Ascii(name) && item.members[i].value == value
      && forall k | 0 <= k < i :: item.members[k].key != Ascii(name)
  }

  /** What an entry has to say, and in which of its fields. */
  ghost predicate Says(item: Json, id: real, console: real, title: ByteString, count: real, hashes: seq<Json>) {
    && HasField(item, "ID", Number(id)) && HasField(item, "ConsoleID", Number(console))
    && HasField(item, "Title", String(title)) && HasField(item, "NumAchievements", Number(count))
    && HasField(item, "Hashes", Array(hashes))
  }

  lemma FieldMeans(item: Json, name: string, value: Json)
    ensures Field(item, Ascii(name)) == Some(value) <==> HasField(item, name, value)
  {
    hide Ascii;
    if HasField(item, name, value) {
      var at := JsonCompare.Find(item.members, Ascii(name), true, 0);
      assert at.Some?;
    }
  }

  /** An entry is read as what its fields say, if it is one of this console and is neither unnamed nor empty. */
  lemma EntryMeans(item: Json, console: int, read: Item)
    ensures ReadItem(item, console) == Some(read) <==>
            exists id, owner, count ::
              && Says(item, id, owner, read.title, count, read.hashes)
              && ToInt(owner) == console && read.title != [] && read.hashes != []
              && read.id == ToInt(id) && read.achievements == ToInt(count) && read.achievements > 0
  {
    hide Field, HasField, ToInt, Ascii;
    forall value: Json
      ensures Field(item, ID_KEY) == Some(value) <==> HasField(item, "ID", value)
      ensures Field(item, CONSOLE_KEY) == Some(value) <==> HasField(item, "ConsoleID", value)
      ensures Field(item, TITLE_KEY) == Some(value) <==> HasField(item, "Title", value)
      ensures Field(item, COUNT_KEY) == Some(value) <==> HasField(item, "NumAchievements", value)
      ensures Field(item, HASHES_KEY) == Some(value) <==> HasField(item, "Hashes", value)
    {
      FieldMeans(item, "ID", value);
      FieldMeans(item, "ConsoleID", value);
      FieldMeans(item, "Title", value);
      FieldMeans(item, "NumAchievements", value);
      FieldMeans(item, "Hashes", value);
    }
    if ReadItem(item, console) == Some(read) {
      var id, owner, count := Field(item, ID_KEY), Field(item, CONSOLE_KEY), Field(item, COUNT_KEY);
      assert Says(item, id.value.number, owner.value.number, read.title, count.value.number, read.hashes);
    }
  }

  predicate HashByte(b: Byte) {
    0x30 <= b <= 0x39 || 0x61 <= b <= 0x66
  }

  predicate ValidHash(hash: Json) {
    hash.String? && |hash.text| == 32 && forall i | 0 <= i < 32 :: HashByte(hash.text[i])
  }

  /** The hashes of one game added to a table, unless one is malformed or there already. */
  function AddHashes(table: Option<map<Hash, int>>, id: int, hashes: seq<Json>): Option<map<Hash, int>> {
    if hashes == [] then table
    else
      match AddHashes(table, id, hashes[..|hashes| - 1])
      case None => None
      case Some(before) =>
        var last := hashes[|hashes| - 1];
        if ValidHash(last) && last.text !in before then Some(before[last.text := id]) else None
  }

  /** The table of the first n entries, if they are all in order. */
  function TableOf(items: seq<Json>, console: int, n: nat): Option<map<Hash, int>>
    requires n <= |items|
  {
    if n == 0 then Some(map[])
    else
      match ReadItem(items[n - 1], console)
      case None => None
      case Some(item) => AddHashes(TableOf(items, console, n - 1), item.id, item.hashes)
  }

  lemma {:induction false} TableBefore(items: seq<Json>, console: int, n: nat, m: nat)
    requires n <= m <= |items| && TableOf(items, console, n).None?
    ensures TableOf(items, console, m).None?
    decreases m - n
  {
    hide ReadItem, AddHashes;
    if n < m {
      TableBefore(items, console, n, m - 1);
      var last := ReadItem(items[m - 1], console);
      if last.Some? {
        AddToNone(last.value.id, last.value.hashes);
      }
    }
  }

  lemma {:induction false} AddToNone(id: int, hashes: seq<Json>)
    ensures AddHashes(None, id, hashes) == None
  {
    if hashes != [] {
      AddToNone(id, hashes[..|hashes| - 1]);
    }
  }

  lemma {:induction false} AddBefore(table: Option<map<Hash, int>>, id: int, hashes: seq<Json>, n: nat)
    requires n <= |hashes| && AddHashes(table, id, hashes[..n]).None?
    ensures AddHashes(table, id, hashes).None?
  {
    if n == |hashes| {
      assert hashes[..n] == hashes;
    } else {
      assert hashes[..|hashes| - 1][..n] == hashes[..n];
      AddBefore(table, id, hashes[..|hashes| - 1], n);
    }
  }

  /** The games table with the first n entries written over it, a later entry over an earlier one. */
  function GamesOf(games: map<int, RaGame>, items: seq<Json>, console: int, n: nat): map<int, RaGame>
    requires n <= |items|
  {
    if n == 0 then games
    else
      match ReadItem(items[n - 1], console)
      case None => GamesOf(games, items, console, n - 1)
      case Some(item) =>
        GamesOf(games, items, console, n - 1)[item.id := RaGame(console, item.title, true, item.achievements)]
  }

  /** The hashes with one console's replaced by a table. */
  function Replaced(hashes: map<HashKey, int>, console: int, table: map<Hash, int>): map<HashKey, int> {
    Others(hashes, console) + OfConsole(console, table)
  }

  function Others(hashes: map<HashKey, int>, console: int): map<HashKey, int> {
    map key | key in hashes && key.console != console :: hashes[key]
  }

  function OfConsole(console: int, table: map<Hash, int>): map<HashKey, int> {
    map hash | hash in table :: HashKey(console, hash) := table[hash]
  }

  /** Games of the console that no hash and no library row needs any more are dropped. */
  function Cleaned(games: map<int, RaGame>, console: int, hashes: map<HashKey, int>, referenced: set<int>)
    : map<int, RaGame>
  {
    map id | id in games && (games[id].console != console || id in hashes.Values || id in referenced) :: games[id]
  }

  lemma {:induction false} ReplacedAdd(hashes: map<HashKey, int>, console: int, table: map<Hash, int>, hash: Hash,
                                       id: int)
    ensures Replaced(hashes, console, table[hash := id]) ==
              Replaced(hashes, console, table)[HashKey(console, hash) := id]
    ensures HashKey(console, hash) in Replaced(hashes, console, table) <==> hash in table
  {
    OfConsoleAdd(console, table, hash, id);
    hide OfConsole;
  }

  lemma {:induction false} OfConsoleAdd(console: int, table: map<Hash, int>, hash: Hash, id: int)
    ensures OfConsole(console, table[hash := id]) == OfConsole(console, table)[HashKey(console, hash) := id]
    ensures HashKey(console, hash) in OfConsole(console, table) <==> hash in table
  {
  }

  lemma {:induction false} ReplacedNone(hashes: map<HashKey, int>, console: int)
    ensures Replaced(hashes, console, map[]) == Others(hashes, console)
  {
  }

  predicate Importable(console: int, revision: ByteString, root: Option<Json>) {
    && console > 0 && revision != [] && root.Some? && root.value.Array? && root.value.items != []
    && TableOf(root.value.items, console, |root.value.items|).Some?
  }

  // ----- The tables -----

  class Catalog {
    var games: map<int, RaGame>
    var hashes: map<HashKey, int>
    var generation: nat
    /** The games that rows of the library refer to. */
    var referenced: set<int>

    constructor ()
      ensures games == map[] && hashes == map[] && generation == 0 && referenced == {}
    {
      games, hashes, generation, referenced := map[], map[], 0, {};
    }

    /** Every hash belongs to a game that is there. */
    ghost predicate Valid()
      reads this
    {
      forall key | key in hashes :: hashes[key] in games
    }

    function Resolved(console: int, hash: Hash): Option<(int, int)>
      reads this
    {
      var key := HashKey(console, hash);
      if key in hashes && hashes[key] in games && games[hashes[key]].official && games[hashes[key]].achievements > 0
      then Some((hashes[key], games[hashes[key]].achievements)) else None
    }

    method Resolve(console: int, hash: Hash) returns (status: Status, game: int, achievements: int)
      ensures status == Done ==> Resolved(console, hash) == Some((game, achievements))
      ensures status == NotFound ==> Resolved(console, hash) == None
      ensures status == Done || status == NotFound || status == Failed
    {
      game, achievements := 0, 0;
      var ok: bool := *;
      if !ok {
        return Failed, game, achievements;
      }
      var found := Resolved(console, hash);
      if found.Some? {
        return Done, found.value.0, found.value.1;
      }
      return NotFound, game, achievements;
    }

    /** Replaces the hashes of one console by those of the list, all or nothing. */
    method ImportConsole(console: int, revision: ByteString, root: Option<Json>) returns (status: Status)
      requires Valid()
      modifies this`games, this`hashes, this`generation
      ensures Valid()
      ensures status == Misuse <==> console <= 0 || revision == []
      ensures status == Done ==>
                && root.Some? && root.value.Array? && root.value.items != []
                && var items := root.value.items;
                && TableOf(items, console, |items|).Some?
                && hashes == Replaced(old(hashes), console, TableOf(items, console, |items|).value)
                && games == Cleaned(GamesOf(old(games), items, console, |items|), console, hashes, referenced)
                && generation == old(generation) + 1
      ensures status != Done ==> games == old(games) && hashes == old(hashes) && generation == old(generation)
      ensures Importable(console, revision, root) ==> status == Done || status == Failed
    {
      hide TableOf, GamesOf, Replaced, Cleaned;
      if console <= 0 || revision == [] {
        return Misuse;
      }
      if root.None? || !root.value.Array? || root.value.items == [] {
        return Corrupt;
      }
      var savedGames, savedHashes := games, hashes;
      status := ImportItems(console, root.value.items);
      if status != Done {
        games, hashes := savedGames, savedHashes;
        return;
      }
      CleanedKeeps(games, console, hashes, referenced);
      games := Cleaned(games, console, hashes, referenced);
      var committed: bool := *;
      if !committed {
        games, hashes := savedGames, savedHashes;
        return Failed;
      }
      generation := generation + 1;
    }

    method ImportItems(console: int, items: seq<Json>) returns (status: Status)
      requires Valid()
      modifies this`games, this`hashes
      ensures status == Done ==>
                && TableOf(items, console, |items|).Some?
                && hashes == Replaced(old(hashes), console, TableOf(items, console, |items|).value)
                && games == GamesOf(old(games), items, console, |items|) && Valid()
      ensures TableOf(items, console, |items|).Some? ==> status == Done || status == Failed
      ensures status != Misuse
    {
      hide ReadItem, TableOf, GamesOf, Replaced, Others, AddHashes;
      NothingRead(items, console, games);
      ReplacedNone(hashes, console);
      KeptValid(hashes, console, games);
      hashes := Others(hashes, console);
      var at := 0;
      while at < |items|
        invariant 0 <= at <= |items| && Valid()
        invariant TableOf(items, console, at).Some?
        invariant hashes == Replaced(old(hashes), console, TableOf(items, console, at).value)
        invariant games == GamesOf(old(games), items, console, at)
      {
        ItemRead(items, console, old(games), at);
        if !TableOf(items, console, at + 1).Some? {
          TableBefore(items, console, at + 1, |items|);
        }
        var item := ReadItem(items[at], console);
        if item.None? {
          return Corrupt;
        }
        games := games[item.value.id := RaGame(console, item.value.title, true, item.value.achievements)];
        status := ImportHashes(console, item.value.id, item.value.hashes, old(hashes),
                               TableOf(items, console, at).value);
        if status != Done {
          return;
        }
        at := at + 1;
      }
      return Done;
    }

    method ImportHashes(console: int, id: int, list: seq<Json>, ghost before: map<HashKey, int>,
                        ghost table: map<Hash, int>)
      returns (status: Status)
      requires Valid() && id in games && hashes == Replaced(before, console, table)
      modifies this`hashes
      ensures status == Done ==>
                && Valid() && AddHashes(Some(table), id, list).Some?
                && hashes == Replaced(before, console, AddHashes(Some(table), id, list).value)
      ensures AddHashes(Some(table), id, list).Some? ==> status == Done || status == Failed
      ensures status != Misuse
    {
      hide Replaced;
      var at := 0;
      assert list[..0] == [];
      while at < |list|
        invariant 0 <= at <= |list| && Valid()
        invariant AddHashes(Some(table), id, list[..at]).Some?
        invariant hashes == Replaced(before, console, AddHashes(Some(table), id, list[..at]).value)
      {
        ghost var so := AddHashes(Some(table), id, list[..at]).value;
        assert list[..at + 1][..at] == list[..at];
        if AddHashes(Some(table), id, list[..at + 1]).None? {
          AddBefore(Some(table), id, list, at + 1);
        }
        if !ValidHash(list[at]) {
          return Corrupt;
        }
        var hash := list[at].text;
        ReplacedAdd(before, console, so, hash, id);
        var ok: bool := *;
        if !ok {
          return Failed;
        }
        if HashKey(console, hash) in hashes {
          return Corrupt;
        }
        hashes := hashes[HashKey(console, hash) := id];
        at := at + 1;
      }
      assert list[..at] == list;
      return Done;
    }
  }

  lemma {:induction false} CleanedKeeps(games: map<int, RaGame>, console: int, hashes: map<HashKey, int>,
                                        referenced: set<int>)
    ensures forall key | key in hashes && hashes[key] in games ::
              hashes[key] in Cleaned(games, console, hashes, referenced) &&
              Cleaned(games, console, hashes, referenced)[hashes[key]] == games[hashes[key]]
  {
  }

  lemma {:induction false} KeptValid(hashes: map<HashKey, int>, console: int, games: map<int, RaGame>)
    requires forall key | key in hashes :: hashes[key] in games
    ensures forall key | key in Others(hashes, console) :: Others(hashes, console)[key] in games
  {
  }

  lemma {:induction false} NothingRead(items: seq<Json>, console: int, games: map<int, RaGame>)
    ensures TableOf(items, console, 0) == Some(map[]) && GamesOf(games, items, console, 0) == games
  {
  }

  lemma {:induction false} ItemRead(items: seq<Json>, console: int, games: map<int, RaGame>, n: nat)
    requires n < |items| && TableOf(items, console, n).Some?
    ensures match ReadItem(items[n], console)
            case None => TableOf(items, console, n + 1) == None
            case Some(item) =>
              && TableOf(items, console, n + 1) == AddHashes(TableOf(items, console, n), item.id, item.hashes)
              && GamesOf(games, items, console, n + 1) ==
                 GamesOf(games, items, console, n)[item.id := RaGame(console, item.title, true, item.achievements)]
  {
    hide ReadItem, AddHashes;
  }

  // ----- What an import means -----

  /** Every listed hash is in the table under its game. */
  lemma {:induction false} ListedHash(items: seq<Json>, console: int, n: nat, i: nat, k: nat)
    requires i < n <= |items| && TableOf(items, console, n).Some?
    ensures ReadItem(items[i], console).Some?
    ensures var item := ReadItem(items[i], console).value;
            k < |item.hashes| ==>
              && item.hashes[k].String? && item.hashes[k].text in TableOf(items, console, n).value
              && TableOf(items, console, n).value[item.hashes[k].text] == item.id
  {
    hide ReadItem, AddHashes;
    var last := ReadItem(items[n - 1], console);
    if TableOf(items, console, n - 1).None? {
      TableBefore(items, console, n - 1, n);
    }
    var before := TableOf(items, console, n - 1).value;
    if i == n - 1 {
      if k < |last.value.hashes| {
        AddedHash(before, last.value.id, last.value.hashes, k);
      }
    } else {
      ListedHash(items, console, n - 1, i, k);
      AddedKeeps(before, last.value.id, last.value.hashes);
    }
  }

  lemma {:induction false} AddedHash(table: map<Hash, int>, id: int, hashes: seq<Json>, k: nat)
    requires k < |hashes| && AddHashes(Some(table), id, hashes).Some?
    ensures var after := AddHashes(Some(table), id, hashes).value;
            hashes[k].String? && hashes[k].text in after && after[hashes[k].text] == id
  {
    if k < |hashes| - 1 {
      AddedHash(table, id, hashes[..|hashes| - 1], k);
    }
  }

  lemma {:induction false} AddedKeeps(table: map<Hash, int>, id: int, hashes: seq<Json>)
    requires AddHashes(Some(table), id, hashes).Some?
    ensures forall hash | hash in table ::
              hash in AddHashes(Some(table), id, hashes).value &&
                  AddHashes(Some(table), id, hashes).value[hash] == table[hash]
  {
    if hashes != [] {
      AddedKeeps(table, id, hashes[..|hashes| - 1]);
    }
  }

  ghost predicate DistinctIds(items: seq<Json>, console: int) {
    forall i, j | 0 <= i < j < |items| && ReadItem(items[i], console).Some? && ReadItem(items[j], console).Some? ::
      ReadItem(items[i], console).value.id != ReadItem(items[j], console).value.id
  }

  lemma DistinctIdsMean(items: seq<Json>, console: int)
    ensures DistinctIds(items, console) <==>
            forall i, j, a, b
              | 0 <= i < |items| && 0 <= j < |items| && ReadItem(items[i], console) == Some(a) &&
                ReadItem(items[j], console) == Some(b) && a.id == b.id :: i == j
  {
    hide ReadItem;
    if i, j :| 0 <= i < j < |items| && ReadItem(items[i], console).Some? && ReadItem(items[j], console).Some? &&
               ReadItem(items[i], console).value.id == ReadItem(items[j], console).value.id {
      var a, b := ReadItem(items[i], console).value, ReadItem(items[j], console).value;
      assert ReadItem(items[i], console) == Some(a) && ReadItem(items[j], console) == Some(b);
    }
  }

  lemma {:induction false} ListedGame(games: map<int, RaGame>, items: seq<Json>, console: int, n: nat, i: nat)
    requires i < n <= |items| && DistinctIds(items, console) && ReadItem(items[i], console).Some?
    ensures var item := ReadItem(items[i], console).value;
            item.id in GamesOf(games, items, console, n) &&
            GamesOf(games, items, console, n)[item.id] == RaGame(console, item.title, true, item.achievements)
  {
    hide ReadItem;
    if i < n - 1 {
      ListedGame(games, items, console, n - 1, i);
    }
  }

  /** The entry lists this hash. */
  predicate Lists(item: Json, console: int, hash: Hash) {
    ReadItem(item, console).Some? && String(hash) in ReadItem(item, console).value.hashes
  }

  lemma {:induction false} AllRead(items: seq<Json>, console: int, n: nat)
    requires n <= |items| && TableOf(items, console, n).Some?
    ensures forall i | 0 <= i < n :: ReadItem(items[i], console).Some?
  {
    forall i | 0 <= i < n
      ensures ReadItem(items[i], console).Some?
    {
      ListedHash(items, console, n, i, 0);
    }
  }

  /** The table holds exactly the listed hashes. */
  lemma {:induction false} TableIsListed(items: seq<Json>, console: int, n: nat, hash: Hash)
    requires n <= |items| && TableOf(items, console, n).Some?
    ensures hash in TableOf(items, console, n).value <==> exists i :: 0 <= i < n && Lists(items[i], console, hash)
  {
    hide ReadItem, AddHashes;
    if n > 0 {
      var last := ReadItem(items[n - 1], console);
      if TableOf(items, console, n - 1).None? {
        TableBefore(items, console, n - 1, n);
      }
      TableIsListed(items, console, n - 1, hash);
      AddedExactly(TableOf(items, console, n - 1).value, last.value.id, last.value.hashes, hash);
      assert Lists(items[n - 1], console, hash) <==> String(hash) in last.value.hashes;
    }
  }

  lemma {:induction false} AddedExactly(table: map<Hash, int>, id: int, hashes: seq<Json>, hash: Hash)
    requires AddHashes(Some(table), id, hashes).Some?
    ensures hash in AddHashes(Some(table), id, hashes).value <==> hash in table || String(hash) in hashes
  {
    if hashes != [] {
      var last := hashes[|hashes| - 1];
      AddedExactly(table, id, hashes[..|hashes| - 1], hash);
      assert hashes == hashes[..|hashes| - 1] + [last];
    }
  }

  /** A list that is imported names no hash twice, neither in one entry nor in two. */
  lemma {:induction false} ListedOnce(items: seq<Json>, console: int, n: nat, i: nat, j: nat, hash: Hash)
    requires i <= j < n <= |items| && TableOf(items, console, n).Some?
    ensures ReadItem(items[j], console).Some?
    ensures i < j ==> !(Lists(items[i], console, hash) && Lists(items[j], console, hash))
    ensures forall k, l | 0 <= k < l < |ReadItem(items[j], console).value.hashes| ::
              ReadItem(items[j], console).value.hashes[k] != ReadItem(items[j], console).value.hashes[l]
  {
    hide ReadItem, AddHashes;
    if TableOf(items, console, n - 1).None? {
      TableBefore(items, console, n - 1, n);
    }
    if j < n - 1 {
      ListedOnce(items, console, n - 1, i, j, hash);
    } else {
      var before, item := TableOf(items, console, j).value, ReadItem(items[j], console).value;
      TableIsListed(items, console, j, hash);
      AddedNew(before, item.id, item.hashes);
    }
  }

  lemma {:induction false} AddedNew(table: map<Hash, int>, id: int, hashes: seq<Json>)
    requires AddHashes(Some(table), id, hashes).Some?
    ensures forall k | 0 <= k < |hashes| :: hashes[k].String? && hashes[k].text !in table
    ensures forall k, l | 0 <= k < l < |hashes| :: hashes[k] != hashes[l]
  {
    if hashes != [] {
      var rest, last := hashes[..|hashes| - 1], hashes[|hashes| - 1];
      AddedNew(table, id, rest);
      AddedExactly(table, id, rest, last.text);
      assert forall k | 0 <= k < |rest| :: hashes[k] == rest[k] && rest[k] in rest;
    }
  }

  /** 32 digits, as hexadecimal numbers are written in lower case. */
  ghost predicate IsHash(hash: Json) {
    && hash.String? && |hash.text| == 32
    && forall i | 0 <= i < 32 ::
         '0' <= hash.text[i] as int as char <= '9' || 'a' <= hash.text[i] as int as char <= 'f'
  }

  /** Some hash is listed twice by the first n entries. */
  ghost predicate Repeats(items: seq<Json>, console: int, n: nat)
    requires n <= |items|
  {
    || (exists i, j, hash :: 0 <= i < j < n && Lists(items[i], console, hash) && Lists(items[j], console, hash))
    || (exists i, k, l ::
          && 0 <= i < n && ReadItem(items[i], console).Some?
          && 0 <= k < l < |ReadItem(items[i], console).value.hashes|
          && ReadItem(items[i], console).value.hashes[k] == ReadItem(items[i], console).value.hashes[l])
  }

  /** A list can be imported exactly when all its entries can be read, all hashes are hashes and none is repeated. */
  lemma {:induction false} TableExactly(items: seq<Json>, console: int, n: nat)
    requires n <= |items|
    ensures TableOf(items, console, n).Some? <==>
            && (forall i | 0 <= i < n :: ReadItem(items[i], console).Some?)
            && (forall i, k | 0 <= i < n && 0 <= k < |ReadItem(items[i], console).value.hashes| ::
                  IsHash(ReadItem(items[i], console).value.hashes[k]))
            && !Repeats(items, console, n)
  {
    hide ReadItem, AddHashes, Lists, TableOf, Repeats;
    if n == 0 {
      NothingRead(items, console, map[]);
      assert !Repeats(items, console, 0) by { RepeatsNext(items, console, 0); }
    } else {
      TableExactly(items, console, n - 1);
      RepeatsNext(items, console, n);
      var last := ReadItem(items[n - 1], console);
      if last.Some? {
        TableNext(items, console, n);
        if TableOf(items, console, n - 1).Some? {
          var before := TableOf(items, console, n - 1).value;
          AddExactly(before, last.value.id, last.value.hashes);
          ListedBefore(items, console, n - 1, before);
        } else {
          AddToNone(last.value.id, last.value.hashes);
        }
      } else {
        NoTable(items, console, n);
      }
    }
  }

  lemma RepeatsNext(items: seq<Json>, console: int, n: nat)
    requires n <= |items|
    ensures Repeats(items, console, n) <==>
            && n > 0
            && var last := ReadItem(items[n - 1], console);
            && (|| Repeats(items, console, n - 1)
                || (exists i, hash ::
                      0 <= i < n - 1 && Lists(items[i], console, hash) && Lists(items[n - 1], console, hash))
                || (last.Some? &&
                    exists k, l :: 0 <= k < l < |last.value.hashes| && last.value.hashes[k] == last.value.hashes[l]))
  {
    hide ReadItem, Lists;
    if n > 0 {
      var last := ReadItem(items[n - 1], console);
      if i, hash :| 0 <= i < n - 1 && Lists(items[i], console, hash) && Lists(items[n - 1], console, hash) {
        assert Repeats(items, console, n);
      }
      if last.Some? {
        if k, l :| 0 <= k < l < |last.value.hashes| && last.value.hashes[k] == last.value.hashes[l] {
          assert Repeats(items, console, n);
        }
      }
    }
  }

  lemma NoTable(items: seq<Json>, console: int, n: nat)
    requires 0 < n <= |items| && ReadItem(items[n - 1], console).None?
    ensures TableOf(items, console, n) == None
  {
    hide ReadItem;
  }

  lemma TableNext(items: seq<Json>, console: int, n: nat)
    requires 0 < n <= |items| && ReadItem(items[n - 1], console).Some?
    ensures var last := ReadItem(items[n - 1], console).value;
            TableOf(items, console, n) == AddHashes(TableOf(items, console, n - 1), last.id, last.hashes)
  {
  }

  /** What the last entry may not list is what is in the table. */
  lemma {:induction false} ListedBefore(items: seq<Json>, console: int, n: nat, table: map<Hash, int>)
    requires n < |items| && ReadItem(items[n], console).Some? && TableOf(items, console, n) == Some(table)
    ensures var hashes := ReadItem(items[n], console).value.hashes;
            (exists k :: 0 <= k < |hashes| && hashes[k].String? && hashes[k].text in table) <==>
            (exists i, hash :: 0 <= i < n && Lists(items[i], console, hash) && Lists(items[n], console, hash))
  {
    hide ReadItem, TableOf;
    var hashes := ReadItem(items[n], console).value.hashes;
    forall k | 0 <= k < |hashes| && hashes[k].String? && hashes[k].text in table
      ensures exists i, hash :: 0 <= i < n && Lists(items[i], console, hash) && Lists(items[n], console, hash)
    {
      TableIsListed(items, console, n, hashes[k].text);
      assert Lists(items[n], console, hashes[k].text);
    }
    forall i, hash | 0 <= i < n && Lists(items[i], console, hash) && Lists(items[n], console, hash)
      ensures exists k :: 0 <= k < |hashes| && hashes[k].String? && hashes[k].text in table
    {
      TableIsListed(items, console, n, hash);
      var k :| 0 <= k < |hashes| && hashes[k] == String(hash);
    }
  }

  lemma {:induction false} AddExactly(table: map<Hash, int>, id: int, hashes: seq<Json>)
    ensures AddHashes(Some(table), id, hashes).Some? <==>
            && (forall k | 0 <= k < |hashes| :: IsHash(hashes[k]) && hashes[k].text !in table)
            && (forall k, l | 0 <= k < l < |hashes| :: hashes[k] != hashes[l])
  {
    if hashes != [] {
      var rest, last := hashes[..|hashes| - 1], hashes[|hashes| - 1];
      AddExactly(table, id, rest);
      HashMeans(last);
      hide IsHash, ValidHash;
      if AddHashes(Some(table), id, rest).Some? && last.String? {
        AddedExactly(table, id, rest, last.text);
        assert last in rest <==> exists k :: 0 <= k < |rest| && hashes[k] == last;
      }
      assert forall k | 0 <= k < |rest| :: hashes[k] == rest[k];
    }
  }

  lemma HashMeans(hash: Json)
    ensures ValidHash(hash) <==> IsHash(hash)
    ensures IsHash(hash) ==> hash.String?
  {
  }

  /** A hash resolves to an official game with achievements, the one it is entered for. */
  lemma ResolvedMeans(catalog: Catalog, console: int, hash: Hash, game: int, achievements: int)
    ensures catalog.Resolved(console, hash) == Some((game, achievements)) <==>
            exists key, entry ::
              && key in catalog.hashes && key.console == console && key.hash == hash && catalog.hashes[key] == game
              && game in catalog.games && catalog.games[game] == entry
              && entry.official && entry.achievements == achievements && achievements > 0
  {
    if catalog.Resolved(console, hash) == Some((game, achievements)) {
      var key, entry := HashKey(console, hash), catalog.games[game];
      assert key in catalog.hashes && catalog.games[game] == entry;
    }
  }

  /**
   A game that an import leaves is listed, or belonged to another console, or was there before and is still
   referred to; a game of another console that is not listed stays as it is.
   */
  lemma {:induction false} GamesAfter(catalog: Catalog, games: map<int, RaGame>, console: int, items: seq<Json>,
                                      id: int)
    requires catalog.games == Cleaned(GamesOf(games, items, console, |items|), console, catalog.hashes,
                                      catalog.referenced)
    requires forall i | 0 <= i < |items| && ReadItem(items[i], console).Some? ::
               ReadItem(items[i], console).value.id != id
    ensures id in catalog.games <==>
            id in games && (games[id].console != console || id in catalog.referenced ||
                            exists key :: key in catalog.hashes && catalog.hashes[key] == id)
    ensures id in catalog.games ==> catalog.games[id] == games[id]
  {
    hide GamesOf, ReadItem;
    NotListed(games, items, console, |items|, id);
  }

  lemma {:induction false} NotListed(games: map<int, RaGame>, items: seq<Json>, console: int, n: nat, id: int)
    requires n <= |items|
    requires forall i | 0 <= i < n && ReadItem(items[i], console).Some? :: ReadItem(items[i], console).value.id != id
    ensures var after := GamesOf(games, items, console, n);
            (id in after <==> id in games) && (id in games ==> after[id] == games[id])
  {
    hide ReadItem;
    if n > 0 {
      NotListed(games, items, console, n - 1, id);
    }
  }

  lemma {:induction false} ImportListed(catalog: Catalog, hashes: map<HashKey, int>, games: map<int, RaGame>,
                                        console: int,
                                        items: seq<Json>, i: nat, hash: Hash)
    requires TableOf(items, console, |items|).Some? && DistinctIds(items, console) && i < |items|
    requires catalog.hashes == Replaced(hashes, console, TableOf(items, console, |items|).value)
    requires catalog.games == Cleaned(GamesOf(games, items, console, |items|), console, catalog.hashes,
                                      catalog.referenced)
    requires Lists(items[i], console, hash)
    ensures ReadItem(items[i], console).Some?
    ensures catalog.Resolved(console, hash) ==
            Some((ReadItem(items[i], console).value.id, ReadItem(items[i], console).value.achievements))
  {
    var item := ReadItem(items[i], console).value;
    var k :| 0 <= k < |item.hashes| && item.hashes[k] == String(hash);
    hide *;
    ImportMeans(catalog, hashes, games, console, items, i, k);
  }

  /** After an import a hash leads to the game number and the count that the fields of its entry give. */
  lemma {:induction false} ImportSays(catalog: Catalog, hashes: map<HashKey, int>, games: map<int, RaGame>,
                                      console: int, items: seq<Json>, i: nat, id: real, title: ByteString,
                                      count: real, listed: seq<Json>, hash: Hash)
    requires TableOf(items, console, |items|).Some? && DistinctIds(items, console) && i < |items|
    requires catalog.hashes == Replaced(hashes, console, TableOf(items, console, |items|).value)
    requires catalog.games == Cleaned(GamesOf(games, items, console, |items|), console, catalog.hashes,
                                      catalog.referenced)
    requires exists owner :: Says(items[i], id, owner, title, count, listed) && ToInt(owner) == console
    requires title != [] && ToInt(count) > 0 && String(hash) in listed
    ensures catalog.Resolved(console, hash) == Some((ToInt(id), ToInt(count)))
  {
    hide ReadItem, TableOf, GamesOf, DistinctIds, Replaced, Cleaned, Says, ToInt;
    EntryMeans(items[i], console, Item(ToInt(id), title, ToInt(count), listed));
    ImportListed(catalog, hashes, games, console, items, i, hash);
  }

  /** A hash that is not listed does not resolve any more. */
  lemma {:induction false} ImportForgets(catalog: Catalog, hashes: map<HashKey, int>, console: int, items: seq<Json>,
                                         hash: Hash)
    requires TableOf(items, console, |items|).Some?
    requires catalog.hashes == Replaced(hashes, console, TableOf(items, console, |items|).value)
    requires forall i | 0 <= i < |items| :: !Lists(items[i], console, hash)
    ensures catalog.Resolved(console, hash) == None
  {
    TableIsListed(items, console, |items|, hash);
    hide TableOf, Lists;
    assert HashKey(console, hash) !in catalog.hashes;
  }

  /**
   After an import of distinct games every listed hash resolves to its game, and the other consoles'
   hashes are as before.
   */
  lemma {:induction false} ImportMeans(catalog: Catalog, hashes: map<HashKey, int>, games: map<int, RaGame>,
                                       console: int,
                                       items: seq<Json>, i: nat, k: nat)
    requires TableOf(items, console, |items|).Some? && DistinctIds(items, console) && i < |items|
    requires catalog.hashes == Replaced(hashes, console, TableOf(items, console, |items|).value)
    requires catalog.games == Cleaned(GamesOf(games, items, console, |items|), console, catalog.hashes,
                                      catalog.referenced)
    ensures ReadItem(items[i], console).Some?
    ensures var item := ReadItem(items[i], console).value;
            k < |item.hashes| ==>
              item.hashes[k].String? && catalog.Resolved(console, item.hashes[k].text) ==
                  Some((item.id, item.achievements))
    ensures forall key: HashKey | key.console != console :: key in catalog.hashes <==> key in hashes
    ensures forall key: HashKey | key.console != console && key in hashes :: catalog.hashes[key] == hashes[key]
  {
    hide ReadItem, TableOf, GamesOf, DistinctIds;
    ListedHash(items, console, |items|, i, k);
    ListedGame(games, items, console, |items|, i);
    var item, table := ReadItem(items[i], console).value, TableOf(items, console, |items|).value;
    if k < |item.hashes| {
      var key := HashKey(console, item.hashes[k].text);
      assert key in OfConsole(console, table) && key in catalog.hashes && catalog.hashes[key] == item.id;
      CleanedKeeps(GamesOf(games, items, console, |items|), console, catalog.hashes, catalog.referenced);
    }
  }
}
