/**
 The favorites and recents tables. A table is a map from game to position; the position column is
 UNIQUE and SQLite checks it after every single row update, in whatever order it visits the rows.
 */
module LibraryTables {
  import opened Bytes
  import opened GameId

  type Game = ByteString

  type Rows = map<Game, int>

  datatype Status = Done | Misuse | NotFound | Constraint | Fault

  /** Recents at or beyond this position are dropped. */
  const RECENTS_LIMIT: nat := 100

  // ----- One UPDATE statement -----

  /** The table after "SET position = -position - offset" on the selected rows. */
  function Renumbered(rows: Rows, selected: set<Game>, offset: int): Rows {
    map g | g in rows :: if g in selected then 0 - rows[g] - offset else rows[g]
  }

  /** No new position equals an old or a new position of another row. */
  ghost predicate NeverCollides(rows: Rows, selected: set<Game>, offset: int) {
    forall g, h | g in selected && g in rows && h in rows && h != g ::
      0 - rows[g] - offset != rows[h] && (h in selected ==> rows[g] != rows[h])
  }

  /** Visits the selected rows in an arbitrary order and stops at the first collision. */
  method Renumber(rows: Rows, selected: set<Game>, offset: int) returns (ok: bool, updated: Rows)
    requires selected <= rows.Keys
    ensures ok ==> updated == Renumbered(rows, selected, offset)
    ensures NeverCollides(rows, selected, offset) ==> ok
  {
    updated := rows;
    var left := selected;
    while left != {}
      invariant left <= selected
      invariant updated == Renumbered(rows, selected - left, offset)
      decreases left
    {
      var g :| g in left;
      var position := 0 - updated[g] - offset;
      if exists h | h in updated :: h != g && updated[h] == position {
        return false, updated;
      }
      updated := updated[g := position];
      left := left - {g};
    }
    assert selected - left == selected;
    return true, updated;
  }

  /** COALESCE((SELECT MAX(position) + 1), 0) */
  method NextPosition(rows: Rows) returns (position: int)
    ensures rows == map[] ==> position == 0
    ensures rows != map[] ==> exists g :: g in rows && position == rows[g] + 1
    ensures forall g | g in rows :: rows[g] < position
  {
    position := 0;
    var left := rows.Keys;
    var first := true;
    while left != {}
      invariant left <= rows.Keys && (first <==> left == rows.Keys)
      invariant first ==> position == 0
      invariant !first ==> exists g :: g in rows && g !in left && position == rows[g] + 1
      invariant !first ==> forall g | g in rows && g !in left :: rows[g] < position
      decreases left
    {
      var g :| g in left;
      left := left - {g};
      if first || rows[g] + 1 > position {
        position := rows[g] + 1;
      }
      first := false;
    }
    assert first ==> rows.Keys == {};
  }

  // ----- Favorites as a list -----

  ghost predicate Distinct<T>(list: seq<T>) {
    forall i, j | 0 <= i < j < |list| :: list[i] != list[j]
  }

  /** The rows number the list 0, 1, 2, ... */
  ghost predicate Numbers(rows: Rows, list: seq<Game>) {
    && Distinct(list)
    && (forall g :: g in rows <==> g in list)
    && (forall i | 0 <= i < |list| :: rows[list[i]] == i)
  }

  function Appended(list: seq<Game>, game: Game): seq<Game> {
    if game in list then list else list + [game]
  }

  function Removed(list: seq<Game>, game: Game): seq<Game> {
    if list == [] then []
    else if list[0] == game then list[1..]
    else [list[0]] + Removed(list[1..], game)
  }

  lemma {:induction false} RemovedAt(list: seq<Game>, game: Game, k: nat)
    requires Distinct(list) && k < |list| && list[k] == game
    ensures Removed(list, game) == list[..k] + list[k + 1..]
  {
    if k > 0 {
      assert list[0] != game;
      RemovedAt(list[1..], game, k - 1);
      assert list[1..][..k - 1] == list[1..k] && list[1..][k..] == list[k + 1..];
    }
  }

  lemma {:induction false} RemovedAbsent(list: seq<Game>, game: Game)
    requires game !in list
    ensures Removed(list, game) == list
  {
    if list != [] {
      RemovedAbsent(list[1..], game);
    }
  }

  function Without(rows: Rows, game: Game): Rows {
    map g | g in rows && g != game :: rows[g]
  }

  function Above(rows: Rows, position: int): set<Game> {
    set g | g in rows && rows[g] > position
  }

  function Negative(rows: Rows): set<Game> {
    set g | g in rows && rows[g] < 0
  }

  ghost predicate Placed(rows: Rows) {
    && (forall g | g in rows :: rows[g] >= 0)
    && (forall g, h | g in rows && h in rows && g != h :: rows[g] != rows[h])
  }

  function Closed(rows: Rows, position: int): Rows {
    map g | g in rows :: if rows[g] > position then rows[g] - 1 else rows[g]
  }

  /** The first update moves the rows above the gap out of the way, below zero. */
  lemma GapLifts(rows: Rows, position: nat)
    requires Placed(rows)
    ensures NeverCollides(rows, Above(rows, position), 1)
    ensures var up := Renumbered(rows, Above(rows, position), 1);
            && up.Keys == rows.Keys && Negative(up) == Above(rows, position)
            && forall g | g in up :: up[g] == if rows[g] > position then 0 - rows[g] - 1 else rows[g]
  {
  }

  /** The second one brings them back, each one position lower. */
  lemma GapCloses(rows: Rows, up: Rows, position: nat)
    requires Placed(rows) && (forall g | g in rows :: rows[g] != position)
    requires up.Keys == rows.Keys && Negative(up) == Above(rows, position)
    requires forall g | g in up :: up[g] == if rows[g] > position then 0 - rows[g] - 1 else rows[g]
    ensures NeverCollides(up, Negative(up), 2)
    ensures Renumbered(up, Negative(up), 2) == Closed(rows, position)
  {
  }

  lemma RemovalRenumbers(rows: Rows, list: seq<Game>, game: Game)
    requires Numbers(rows, list) && game in rows
    ensures var position, rest := rows[game], Without(rows, game);
            && position >= 0
            && NeverCollides(rest, Above(rest, position), 1)
            && var up := Renumbered(rest, Above(rest, position), 1);
            && NeverCollides(up, Negative(up), 2)
            && Numbers(Renumbered(up, Negative(up), 2), Removed(list, game))
  {
    NumbersPlaced(rows, list, game);
    var position, rest := rows[game], Without(rows, game);
    ClosedNumbers(rows, list, game);
    hide Numbers, Placed, Above, Negative, Renumbered, Without, Removed, NeverCollides, Closed;
    GapLifts(rest, position);
    GapCloses(rest, Renumbered(rest, Above(rest, position), 1), position);
  }

  lemma NumbersPlaced(rows: Rows, list: seq<Game>, game: Game)
    requires Numbers(rows, list) && game in rows
    ensures rows[game] >= 0 && Placed(Without(rows, game))
    ensures forall g | g in Without(rows, game) :: Without(rows, game)[g] != rows[game]
    ensures forall g | g in rows :: 0 <= rows[g] < |list| && list[rows[g]] == g
  {
    forall g | g in rows
      ensures 0 <= rows[g] < |list| && list[rows[g]] == g
    {
      var i :| 0 <= i < |list| && list[i] == g;
    }
  }

  lemma ClosedNumbers(rows: Rows, list: seq<Game>, game: Game)
    requires Numbers(rows, list) && game in rows
    ensures Numbers(Closed(Without(rows, game), rows[game]), Removed(list, game))
  {
    NumbersPlaced(rows, list, game);
    var k := rows[game];
    assert Distinct(list) && list[k] == game && forall i | 0 <= i < |list| :: list[i] in rows && rows[list[i]] == i;
    RemovedAt(list, game, k);
    hide Numbers, Placed, Removed, Distinct;
    var closed, shorter := Closed(Without(rows, game), k), list[..k] + list[k + 1..];
    forall i | 0 <= i < |shorter|
      ensures shorter[i] in closed && closed[shorter[i]] == i
    {
      ShorterAt(list, k, i);
    }
    forall g | g in closed
      ensures 0 <= closed[g] < |shorter| && shorter[closed[g]] == g
    {
      ShorterAt(list, k, closed[g]);
    }
    NumbersFrom(closed, shorter);
  }

  lemma ShorterAt(list: seq<Game>, k: nat, i: nat)
    requires k < |list| && i < |list| - 1
    ensures (list[..k] + list[k + 1..])[i] == if i < k then list[i] else list[i + 1]
  {
  }

  lemma NumbersFrom(rows: Rows, list: seq<Game>)
    requires forall i | 0 <= i < |list| :: list[i] in rows && rows[list[i]] == i
    requires forall g | g in rows :: 0 <= rows[g] < |list| && list[rows[g]] == g
    ensures Numbers(rows, list)
  {
  }

  // ----- Lists in the order of a rank -----

  /** Exactly the games with a rank, by increasing rank. */
  ghost predicate Ranked(list: seq<Game>, rank: Game -> int) {
    (forall g :: g in list <==> rank(g) >= 0) && Increasing(list, rank)
  }

  ghost predicate Increasing(list: seq<Game>, rank: Game -> int) {
    forall i, j | 0 <= i < j < |list| :: rank(list[i]) < rank(list[j])
  }

  lemma IncreasingDistinct(list: seq<Game>, rank: Game -> int)
    requires Increasing(list, rank)
    ensures Distinct(list)
  {
    forall i, j | 0 <= i < j < |list|
      ensures list[i] != list[j]
    {
      assert rank(list[i]) < rank(list[j]);
    }
  }

  lemma {:induction false} RemovedMembers(list: seq<Game>, game: Game)
    requires Distinct(list)
    ensures forall g :: g in Removed(list, game) <==> g in list && g != game
  {
    if list != [] {
      assert list == [list[0]] + list[1..];
      if list[0] != game {
        RemovedMembers(list[1..], game);
      }
    }
  }

  lemma {:induction false} RemovedIncreasing(list: seq<Game>, game: Game, rank: Game -> int)
    requires Increasing(list, rank)
    ensures Increasing(Removed(list, game), rank)
  {
    if list != [] && list[0] != game {
      var rest := Removed(list[1..], game);
      RemovedIncreasing(list[1..], game, rank);
      IncreasingDistinct(list[1..], rank);
      RemovedMembers(list[1..], game);
      hide Removed;
      forall i | 0 <= i < |rest|
        ensures rank(list[0]) < rank(rest[i])
      {
        assert rest[i] in list[1..];
      }
    }
  }

  /** A change of rank that keeps the order of the games in the list. */
  lemma IncreasingKept(list: seq<Game>, before: Game -> int, rank: Game -> int)
    requires Increasing(list, before)
    requires forall g, h | g in list && h in list && before(g) < before(h) :: rank(g) < rank(h)
    ensures Increasing(list, rank)
  {
    forall i, j | 0 <= i < j < |list|
      ensures rank(list[i]) < rank(list[j])
    {
      assert before(list[i]) < before(list[j]) && list[i] in list && list[j] in list;
    }
  }

  // ----- Favorites over a whole run -----

  datatype Edit = Add(game: Game) | Remove(game: Game)

  function FavoritesAfter(edits: seq<Edit>): seq<Game> {
    if edits == [] then []
    else
      var before, last := FavoritesAfter(edits[..|edits| - 1]), edits[|edits| - 1];
      if last.Add? then Appended(before, last.game) else Removed(before, last.game)
  }

  /** When the game was added, or -1 if it is not there or has been removed since. */
  function AddedAt(edits: seq<Edit>, game: Game): (at: int)
    ensures -1 <= at < |edits|
  {
    if edits == [] then -1
    else AddedNext(AddedAt(edits[..|edits| - 1], game), edits[|edits| - 1], game, |edits| - 1)
  }

  function AddedNext(before: int, last: Edit, game: Game, now: nat): int {
    if last.game != game then before
    else if last.Remove? then -1
    else if before >= 0 then before
    else now
  }

  /** The time of an addition that came when the game was not there and that no removal has followed. */
  lemma {:induction false} AddedAtMeans(edits: seq<Edit>, game: Game, k: nat)
    requires k < |edits|
    ensures AddedAt(edits, game) == k <==>
            && edits[k] == Add(game) && AddedAt(edits[..k], game) == -1
            && forall j | k < j < |edits| :: edits[j] != Remove(game)
    ensures edits[k] == Remove(game) && (forall j | k < j < |edits| :: edits[j].game != game) ==>
              AddedAt(edits, game) == -1
    ensures (forall j | 0 <= j < |edits| :: edits[j].game != game) ==> AddedAt(edits, game) == -1
  {
    var before := edits[..|edits| - 1];
    if k < |before| {
      AddedAtMeans(before, game, k);
      assert before[..k] == edits[..k];
    } else if before != [] {
      AddedAtMeans(before, game, 0);
    }
  }

  /** The list is the games added and not removed since, in the order they were added. */
  lemma {:induction false} FavoritesInOrderAdded(edits: seq<Edit>)
    ensures Ranked(FavoritesAfter(edits), g => AddedAt(edits, g))
  {
    if edits != [] {
      var before, last := edits[..|edits| - 1], edits[|edits| - 1];
      FavoritesInOrderAdded(before);
      EditKeepsOrder(FavoritesAfter(before), g => AddedAt(before, g), g => AddedAt(edits, g), last, |before|);
    }
  }

  lemma EditKeepsOrder(list: seq<Game>, before: Game -> int, rank: Game -> int, last: Edit, now: nat)
    requires Ranked(list, before) && forall g :: before(g) < now
    requires forall g :: rank(g) == AddedNext(before(g), last, g, now)
    ensures Ranked(if last.Add? then Appended(list, last.game) else Removed(list, last.game), rank)
  {
    hide Ranked, Appended, Removed;
    if last.Remove? {
      RemoveKeepsOrder(list, before, rank, last.game);
    } else {
      AddKeepsOrder(list, before, rank, last.game, now);
    }
  }

  lemma RemoveKeepsOrder(list: seq<Game>, before: Game -> int, rank: Game -> int, game: Game)
    requires Ranked(list, before) && forall g :: rank(g) == if g == game then -1 else before(g)
    ensures Ranked(Removed(list, game), rank)
  {
    IncreasingDistinct(list, before);
    RemovedMembers(list, game);
    RemovedIncreasing(list, game, before);
    hide Removed;
    IncreasingKept(Removed(list, game), before, rank);
  }

  lemma AddKeepsOrder(list: seq<Game>, before: Game -> int, rank: Game -> int, game: Game, now: nat)
    requires Ranked(list, before) && forall g :: before(g) < now
    requires forall g :: rank(g) == if g == game && before(g) < 0 then now else before(g)
    ensures Ranked(Appended(list, game), rank)
  {
    IncreasingKept(list, before, rank);
    if game !in list {
      forall i | 0 <= i < |list|
        ensures rank(list[i]) < rank(game)
      {
        assert list[i] in list;
      }
    }
  }

  // ----- Recents -----

  /** The number of records since the game's own, imported games being older in their order; -1 if never seen. */
  function Age(imported: seq<Game>, recorded: seq<Game>, game: Game): (age: int)
    ensures age >= -1
  {
    if recorded == [] then Index(imported, game)
    else AgeNext(Age(imported, recorded[..|recorded| - 1], game), recorded[|recorded| - 1], game)
  }

  function AgeNext(before: int, last: Game, game: Game): int {
    if game == last then 0 else if before < 0 then -1 else before + 1
  }

  function Index(list: seq<Game>, game: Game): (at: int)
    ensures -1 <= at < |list|
    ensures at >= 0 <==> game in list
    ensures at >= 0 ==> list[at] == game
  {
    if list == [] then -1
    else if list[0] == game then 0
    else
      var at := Index(list[1..], game);
      if at < 0 then -1 else at + 1
  }

  /** The table holds the games below the limit, each at its age. */
  ghost predicate Shows(rows: Rows, imported: seq<Game>, recorded: seq<Game>) {
    && Distinct(imported)
    && (forall g :: g in rows <==> InTable(imported, recorded, g))
    && (forall g | g in rows :: rows[g] == Age(imported, recorded, g))
  }

  predicate InTable(imported: seq<Game>, recorded: seq<Game>, game: Game) {
    var age := Age(imported, recorded, game);
    age >= 0 && (recorded == [] || age < RECENTS_LIMIT)
  }

  /** The records since the game's last one, or all of them and the imported games in front of it. */
  lemma {:induction false} AgeMeans(imported: seq<Game>, recorded: seq<Game>, game: Game, k: nat)
    ensures k < |recorded| && recorded[k] == game && (forall j | k < j < |recorded| :: recorded[j] != game) ==>
              Age(imported, recorded, game) == |recorded| - 1 - k
    ensures k < |imported| && imported[k] == game && game !in imported[..k] && game !in recorded ==>
              Age(imported, recorded, game) == |recorded| + k
    ensures game !in imported && game !in recorded ==> Age(imported, recorded, game) == -1
  {
    if recorded != [] {
      AgeMeans(imported, recorded[..|recorded| - 1], game, k);
    } else if k < |imported| {
      var at := Index(imported, game);
      IndexFirst(imported, game);
      assert 0 <= at < k ==> imported[..k][at] == game;
      assert at > k ==> imported[..at][k] == imported[k];
    }
  }

  lemma {:induction false} IndexFirst(list: seq<Game>, game: Game)
    ensures Index(list, game) >= 0 ==> game !in list[..Index(list, game)]
  {
    if list != [] && list[0] != game {
      IndexFirst(list[1..], game);
      var at := Index(list, game);
      assert at > 0 ==> list[..at] == [list[0]] + list[1..][..at - 1];
    }
  }

  /** Two games never have the same age. */
  lemma {:induction false} AgesDiffer(imported: seq<Game>, recorded: seq<Game>, g: Game, h: Game)
    requires g != h && Age(imported, recorded, g) >= 0
    ensures Age(imported, recorded, g) != Age(imported, recorded, h)
  {
    if recorded != [] && recorded[|recorded| - 1] != g {
      AgesDiffer(imported, recorded[..|recorded| - 1], g, h);
    }
  }

  lemma ShownPlaced(rows: Rows, imported: seq<Game>, recorded: seq<Game>)
    requires Shows(rows, imported, recorded)
    ensures Placed(rows)
  {
    forall g, h | g in rows && h in rows && g != h
      ensures rows[g] != rows[h]
    {
      AgesDiffer(imported, recorded, g, h);
    }
  }

  // ----- Recents against the whole history -----

  function MoveToFrontList(imported: seq<Game>, recorded: seq<Game>): seq<Game> {
    if recorded == [] then imported
    else
      var last := recorded[|recorded| - 1];
      [last] + Removed(MoveToFrontList(imported, recorded[..|recorded| - 1]), last)
  }

  /** The move-to-front list holds every game ever seen, from the youngest to the oldest. */
  lemma {:induction false} MoveToFrontYoungest(imported: seq<Game>, recorded: seq<Game>)
    requires Distinct(imported)
    ensures Ranked(MoveToFrontList(imported, recorded), g => Age(imported, recorded, g))
  {
    if recorded == [] {
      forall i | 0 <= i < |imported|
        ensures Index(imported, imported[i]) == i
      {
      }
    } else {
      var before, last := recorded[..|recorded| - 1], recorded[|recorded| - 1];
      MoveToFrontYoungest(imported, before);
      FrontYoungest(MoveToFrontList(imported, before), g => Age(imported, before, g), g => Age(imported, recorded, g),
                    last);
    }
  }

  lemma FrontYoungest(list: seq<Game>, before: Game -> int, rank: Game -> int, last: Game)
    requires Ranked(list, before)
    requires forall g :: rank(g) == AgeNext(before(g), last, g)
    ensures Ranked([last] + Removed(list, last), rank)
  {
    hide Removed, Increasing, Distinct;
    IncreasingDistinct(list, before);
    RemovedMembers(list, last);
    RemovedIncreasing(list, last, before);
    var rest := Removed(list, last);
    IncreasingKept(rest, before, rank);
    assert forall g | g in rest :: 0 <= rank(g) && rank(last) < rank(g);
    IncreasingFront(last, rest, rank);
    assert forall g :: g in [last] + rest <==> g == last || g in rest;
  }

  lemma IncreasingFront(first: Game, rest: seq<Game>, rank: Game -> int)
    requires Increasing(rest, rank) && forall g | g in rest :: rank(first) < rank(g)
    ensures Increasing([first] + rest, rank)
  {
    forall i | 0 <= i < |rest|
      ensures rank(first) < rank(rest[i])
    {
      assert rest[i] in rest;
    }
  }

  /** Ordered by position, the table is a beginning of the move-to-front list of the whole history. */
  lemma RecentsArePrefix(rows: Rows, imported: seq<Game>, recorded: seq<Game>) returns (n: nat)
    requires Shows(rows, imported, recorded)
    ensures var list := MoveToFrontList(imported, recorded);
            && n <= |list|
            && (forall g :: g in rows <==> g in list[..n])
            && (forall i, j | 0 <= i < j < n :: list[i] in rows && list[j] in rows && rows[list[i]] < rows[list[j]])
    ensures recorded != [] ==> forall g | g in rows :: 0 <= rows[g] < 100
  {
    MoveToFrontYoungest(imported, recorded);
    var list := MoveToFrontList(imported, recorded);
    n := InTableAreFirst(list, imported, recorded);
    hide Age, MoveToFrontList, InTable;
    forall i | 0 <= i < n
      ensures list[i] in rows
    {
      assert list[..n][i] == list[i];
    }
    forall i, j | 0 <= i < j < n
      ensures rows[list[i]] < rows[list[j]]
    {
      assert Age(imported, recorded, list[i]) < Age(imported, recorded, list[j]);
    }
  }

  lemma InTableAreFirst(list: seq<Game>, imported: seq<Game>, recorded: seq<Game>) returns (n: nat)
    requires Ranked(list, g => Age(imported, recorded, g))
    ensures n <= |list| && forall g :: InTable(imported, recorded, g) <==> g in list[..n]
  {
    hide Age;
    n := 0;
    while n < |list| && InTable(imported, recorded, list[n])
      invariant n <= |list| && forall i | 0 <= i < n :: InTable(imported, recorded, list[i])
    {
      n := n + 1;
    }
    forall i | n <= i < |list|
      ensures !InTable(imported, recorded, list[i])
    {
      assert list[n] in list;
      if n < i {
        assert Age(imported, recorded, list[n]) < Age(imported, recorded, list[i]);
      }
    }
    forall g | InTable(imported, recorded, g)
      ensures g in list[..n]
    {
      assert g in list;
      var i :| 0 <= i < |list| && list[i] == g;
      assert list[..n][i] == g;
    }
  }

  function OneOlder(rows: Rows): Rows {
    map g | g in rows :: rows[g] + 1
  }

  function Kept(rows: Rows): Rows {
    map g | g in rows && rows[g] < RECENTS_LIMIT :: rows[g]
  }

  /** The table after one more record of a game that is not in front. */
  function Promoted(rows: Rows, game: Game): Rows {
    Kept(OneOlder(Without(rows, game))[game := 0])
  }

  // ----- Where the positions are 0, 1, 2, ... -----

  predicate Taken(rows: Rows, position: int) {
    exists g | g in rows :: rows[g] == position
  }

  /** Below every position that is taken all others are. */
  ghost predicate Dense(rows: Rows) {
    forall g, k | g in rows && 0 <= k < rows[g] :: Taken(rows, k)
  }

  ghost predicate AtTheEnd(rows: Rows, game: Game)
    requires game in rows
  {
    forall g | g in rows :: rows[g] <= rows[game]
  }

  /**
   Dense positions stay dense exactly when the game is new, or the last one, or the only one behind it falls
   out of the table. Any other game leaves a hole behind the place where it was.
   */
  lemma DenseAfterRecord(rows: Rows, game: Game)
    requires Placed(rows) && Dense(rows) && forall g | g in rows :: rows[g] < 100
    ensures Dense(Promoted(rows, game)) <==>
            game !in rows || AtTheEnd(rows, game) || rows[game] == 98
  {
    PromotedRows(rows, game);
    hide Promoted, Without, OneOlder, Kept;
    if game in rows && !AtTheEnd(rows, game) && rows[game] != RECENTS_LIMIT - 2 {
      HoleBehind(rows, game);
    } else {
      NoHole(rows, game);
    }
  }

  lemma PromotedRows(rows: Rows, game: Game)
    requires Placed(rows)
    ensures var after := Promoted(rows, game);
            && (forall g :: g in after <==> g == game || (g in rows && rows[g] + 1 < 100))
            && (forall g | g in after :: after[g] == if g == game then 0 else rows[g] + 1)
  {
  }

  lemma HoleBehind(rows: Rows, game: Game)
    requires Placed(rows) && Dense(rows) && forall g | g in rows :: rows[g] < RECENTS_LIMIT
    requires game in rows && !AtTheEnd(rows, game) && rows[game] != RECENTS_LIMIT - 2
    ensures !Dense(Promoted(rows, game))
  {
    PromotedRows(rows, game);
    hide Promoted;
    var after, p := Promoted(rows, game), rows[game];
    var last :| last in rows && rows[last] > p;
    assert Taken(rows, p + 1) by {
      assert rows[last] > p + 1 ==> Taken(rows, p + 1);
    }
    var next :| next in rows && rows[next] == p + 1;
    assert next in after && after[next] == p + 2;
    assert !Taken(after, p + 1);
  }

  lemma NoHole(rows: Rows, game: Game)
    requires Placed(rows) && Dense(rows) && forall g | g in rows :: rows[g] < RECENTS_LIMIT
    requires game !in rows || AtTheEnd(rows, game) || rows[game] == RECENTS_LIMIT - 2
    ensures Dense(Promoted(rows, game))
  {
    PromotedRows(rows, game);
    hide Promoted;
    var after := Promoted(rows, game);
    forall g, k | g in after && 0 <= k < after[g]
      ensures Taken(after, k)
    {
      if k == 0 {
        assert after[game] == 0;
      } else {
        assert Taken(rows, k - 1) by {
          assert g in rows && 0 <= k - 1 < rows[g];
        }
        var h :| h in rows && rows[h] == k - 1;
        assert h in after && h != game && after[h] == k;
      }
    }
  }

  /** Recording a game from the middle again leaves a hole. */
  lemma RecentsLeaveGaps(rows: Rows, a: Game, b: Game, c: Game)
    requires a != b && b != c && a != c && Shows(rows, [], [a, b, c, b])
    ensures rows == map[b := 0, c := 1, a := 3] && !Dense(rows)
  {
    AgesOfFour(a, b, c);
    hide Age;
    assert a in rows && b in rows && c in rows;
    assert forall g | g in rows :: g == a || g == b || g == c;
    assert rows[a] == 3 && !Taken(rows, 2);
  }

  lemma AgesOfFour(a: Game, b: Game, c: Game)
    requires a != b && b != c && a != c
    ensures var recorded := [a, b, c, b];
            && Age([], recorded, b) == 0 && Age([], recorded, c) == 1 && Age([], recorded, a) == 3
            && forall g | g != a && g != b && g != c :: Age([], recorded, g) == -1
  {
    assert [a, b, c, b][..3] == [a, b, c] && [a, b, c][..2] == [a, b] && [a, b][..1] == [a] && [a][..0] == [];
    forall g
      ensures g == a ==> Age([], [a, b, c, b], g) == 3
      ensures g == b ==> Age([], [a, b, c, b], g) == 0
      ensures g == c ==> Age([], [a, b, c, b], g) == 1
      ensures g != a && g != b && g != c ==> Age([], [a, b, c, b], g) == -1
    {
      assert Age([], [], g) == -1;
      assert Age([], [a], g) == if g == a then 0 else -1;
      assert Age([], [a, b], g) == if g == b then 0 else if g == a then 1 else -1;
      assert Age([], [a, b, c], g) == if g == c then 0 else if g == b then 1 else if g == a then 2 else -1;
    }
  }

  lemma AllDown(rows: Rows, down: Rows)
    requires Placed(rows) && down == Renumbered(rows, rows.Keys, 2)
    ensures NeverCollides(rows, rows.Keys, 2)
    ensures down.Keys == rows.Keys && forall g | g in down :: down[g] == 0 - rows[g] - 2
  {
  }

  lemma AllUp(rows: Rows, down: Rows)
    requires Placed(rows) && down.Keys == rows.Keys && forall g | g in down :: down[g] == 0 - rows[g] - 2
    ensures NeverCollides(down, down.Keys, 1) && Renumbered(down, down.Keys, 1) == OneOlder(rows)
  {
    assert forall g | g in down :: 0 - down[g] - 1 == rows[g] + 1;
  }

  /** Both updates hit every row, and neither can collide. */
  lemma AllAge(rows: Rows)
    requires Placed(rows)
    ensures NeverCollides(rows, rows.Keys, 2)
    ensures var down := Renumbered(rows, rows.Keys, 2);
            && down.Keys == rows.Keys && NeverCollides(down, down.Keys, 1)
            && Renumbered(down, down.Keys, 1) == OneOlder(rows)
  {
    var down := Renumbered(rows, rows.Keys, 2);
    AllDown(rows, down);
    hide Renumbered, NeverCollides;
    AllUp(rows, down);
  }

  /** Ageing the others and putting the game in front is one more record. */
  lemma RecordShows(rows: Rows, imported: seq<Game>, recorded: seq<Game>, game: Game)
    requires Shows(rows, imported, recorded)
    ensures game !in OneOlder(Without(rows, game)) && forall g | g in OneOlder(Without(rows, game)) ::
              OneOlder(Without(rows, game))[g] != 0
    ensures Shows(Promoted(rows, game), imported, recorded + [game])
    ensures Promoted(rows, game) == Kept(OneOlder(Without(rows, game))[game := 0])
  {
    hide *;
    ShownPlaced(rows, imported, recorded);
    NoneInFront(rows, game);
    PromotedShows(rows, imported, recorded, game);
  }

  lemma NoneInFront(rows: Rows, game: Game)
    requires Placed(rows)
    ensures game !in OneOlder(Without(rows, game)) && forall g | g in OneOlder(Without(rows, game)) ::
              OneOlder(Without(rows, game))[g] != 0
    ensures Promoted(rows, game) == Kept(OneOlder(Without(rows, game))[game := 0])
  {
    hide Kept;
  }

  lemma PromotedShows(rows: Rows, imported: seq<Game>, recorded: seq<Game>, game: Game)
    requires Shows(rows, imported, recorded) && Placed(rows)
    ensures Shows(Promoted(rows, game), imported, recorded + [game])
  {
    hide Age, Promoted, Placed;
    PromotedRows(rows, game);
    forall g
      ensures Age(imported, recorded + [game], g) == AgeNext(Age(imported, recorded, g), game, g)
    {
      AgeAfter(imported, recorded, game, g);
    }
  }

  lemma AgeAfter(imported: seq<Game>, recorded: seq<Game>, game: Game, g: Game)
    ensures Age(imported, recorded + [game], g) == AgeNext(Age(imported, recorded, g), game, g)
  {
    var longer := recorded + [game];
    assert longer[..|longer| - 1] == recorded;
  }

  class Library {
    var favorites: Rows
    var recents: Rows
    /** The games that are there. */
    var present: set<Game>
    ghost var order: seq<Game>
    /** The recents as last imported, and the records since that changed the table. */
    ghost var imported: seq<Game>
    ghost var recorded: seq<Game>

    ghost predicate Valid()
      reads this
    {
      Numbers(favorites, order) && Shows(recents, imported, recorded)
    }

    /** Any statement, the commit included, may fail for reasons outside of the tables. */
    method Runs() returns (ok: bool)
    {
      ok := *;
    }

    /** The favorites stay a list: adding appends, removing keeps the others in order, failing changes nothing. */
    method FavoriteSet(game: Game, favorite: bool) returns (result: Status, changed: bool)
      requires Valid()
      modifies `favorites, `order
      ensures Valid()
      ensures result == Misuse <==> !ValidId(game)
      ensures result == Done ==> game in present
      ensures result == NotFound ==> ValidId(game) && game !in present
      ensures result == Done ==> order == if favorite then Appended(old(order), game) else Removed(old(order), game)
      ensures result != Done ==> order == old(order) && favorites == old(favorites)
      ensures result != Constraint
      ensures changed <==> order != old(order)
    {
      changed := false;
      if !ValidId(game) {
        return Misuse, false;
      }
      var saved := favorites;
      result, changed := FavoriteStatements(game, favorite);
      if result == Done {
        var ok := Runs();
        result := if ok then Done else Fault;
      }
      if result != Done {
        favorites := saved;
        order := old(order);
        changed := false;
      }
    }

    /** What runs inside the transaction. */
    method FavoriteStatements(game: Game, favorite: bool) returns (result: Status, changed: bool)
      requires Valid()
      modifies `favorites, `order
      ensures result == Done ==>
                && Valid() && game in present
                && order == (if favorite then Appended(old(order), game) else Removed(old(order), game))
                && (changed <==> order != old(order))
      ensures result != Constraint && result != Misuse && (result == NotFound ==> game !in present)
    {
      var ok := Runs();
      if !ok {
        return Fault, false;
      }
      if game !in present {
        return NotFound, false;
      }
      ok := Runs();
      if !ok {
        return Fault, false;
      }
      if favorite {
        changed := AddFavorite(game);
        return Done, changed;
      }
      result, changed := RemoveFavorite(game);
    }

    /** INSERT OR IGNORE at the end of the list. */
    method AddFavorite(game: Game) returns (changed: bool)
      requires Valid()
      modifies `favorites, `order
      ensures Valid() && order == Appended(old(order), game) && (changed <==> order != old(order))
    {
      var position := NextPosition(favorites);
      AppendNumbers(favorites, order, game, position);
      changed := game !in favorites && forall g | g in favorites :: favorites[g] != position;
      if changed {
        favorites := favorites[game := position];
      }
      order := Appended(order, game);
    }

    /** A game in front stays there; any other goes to the front and everything else gets older. */
    method RecentRecord(game: Game) returns (result: Status, changed: bool)
      requires Valid()
      modifies `recents, `recorded
      ensures Valid()
      ensures result == Misuse <==> !ValidId(game)
      ensures result == Done ==> game in present && Age(imported, recorded, game) == 0
      ensures result == NotFound ==> ValidId(game) && game !in present
      ensures changed <==> result == Done && Age(imported, old(recorded), game) != 0
      ensures recorded == if changed then old(recorded) + [game] else old(recorded)
      ensures recents == if changed then Promoted(old(recents), game) else old(recents)
      ensures result != Constraint
    {
      changed := false;
      if !ValidId(game) {
        return Misuse, false;
      }
      var saved := recents;
      result, changed := RecentStatements(game);
      if result == Done {
        var ok := Runs();
        result := if ok then Done else Fault;
      }
      if result != Done {
        recents := saved;
        recorded := old(recorded);
        changed := false;
      }
    }

    method RecentStatements(game: Game) returns (result: Status, changed: bool)
      requires Valid()
      modifies `recents, `recorded
      ensures result == Done ==>
                && Valid() && game in present && Age(imported, recorded, game) == 0
                && (changed <==> Age(imported, old(recorded), game) != 0)
                && recorded == (if changed then old(recorded) + [game] else old(recorded))
                && recents == (if changed then Promoted(old(recents), game) else old(recents))
      ensures result != Constraint && result != Misuse && (result == NotFound ==> game !in present)
    {
      changed := false;
      var ok := Runs();
      if !ok {
        return Fault, false;
      }
      var position := if game in recents then recents[game] else -1;
      if game !in present {
        return NotFound, false;
      }
      if position == 0 {
        return Done, false;
      }
      result := MoveToFront(game);
      changed := true;
    }

    method MoveToFront(game: Game) returns (result: Status)
      requires Valid() && (game in recents ==> recents[game] != 0)
      modifies `recents, `recorded
      ensures result == Done ==>
                Valid() && recorded == old(recorded) + [game] &&
                recents == Promoted(old(recents), game)
      ensures result == Done || result == Fault
    {
      RecordShows(recents, imported, recorded, game);
      ShownPlaced(recents, imported, recorded);
      assert Placed(Without(recents, game));
      hide *;
      recents := Without(recents, game);
      var ok := Runs();
      if !ok {
        return Fault;
      }
      result := AgeOthers();
      if result != Done {
        return;
      }
      ok := Runs();
      if !ok {
        return Fault;
      }
      if game in recents || exists g | g in recents :: recents[g] == 0 {
        return Constraint;
      }
      recents := recents[game := 0];
      ok := Runs();
      if !ok {
        return Fault;
      }
      recents := Kept(recents);
      recorded := recorded + [game];
      return Done;
    }

    /** The detour through negative numbers. */
    method AgeOthers() returns (result: Status)
      requires Placed(recents)
      modifies `recents
      ensures result == Done ==> recents == OneOlder(old(recents))
      ensures result == Done || result == Fault
    {
      AllAge(recents);
      hide *;
      var ok;
      ok, recents := Renumber(recents, recents.Keys, 2);
      if !ok {
        return Constraint;
      }
      ok := Runs();
      if !ok {
        return Fault;
      }
      ok, recents := Renumber(recents, recents.Keys, 1);
      if !ok {
        return Constraint;
      }
      return Done;
    }

    method RemoveFavorite(game: Game) returns (result: Status, changed: bool)
      requires Valid()
      modifies `favorites, `order
      ensures result == Done ==>
                Valid() && order == Removed(old(order), game) && (changed <==> order != old(order))
      ensures result == Done || result == Fault
    {
      var position := if game in favorites then favorites[game] else -1;
      changed := false;
      if position < 0 {
        AbsentUnnumbered(favorites, order, game);
        RemovedAbsent(order, game);
        return Done, false;
      }
      RemovalRenumbers(favorites, order, game);
      hide *;
      favorites := Without(favorites, game);
      changed := true;
      var ok := Runs();
      if !ok {
        return Fault, changed;
      }
      ok, favorites := Renumber(favorites, Above(favorites, position), 1);
      if !ok {
        return Constraint, changed;
      }
      ok := Runs();
      if !ok {
        return Fault, changed;
      }
      ok, favorites := Renumber(favorites, Negative(favorites), 2);
      if !ok {
        return Constraint, changed;
      }
      order := Removed(order, game);
      return Done, changed;
    }
  }

  lemma AppendNumbers(rows: Rows, list: seq<Game>, game: Game, position: int)
    requires Numbers(rows, list)
    requires rows == map[] ==> position == 0
    requires rows != map[] ==> exists g :: g in rows && position == rows[g] + 1
    requires forall g | g in rows :: rows[g] < position
    ensures position == |list|
    ensures game !in rows ==> Numbers(rows[game := position], list + [game])
    ensures game in rows <==> game in list
  {
    if list == [] {
      assert rows == map[];
    } else {
      assert list[|list| - 1] in rows;
      var g :| g in rows && position == rows[g] + 1;
      assert g in list;
    }
    if game !in rows {
      var longer, more := list + [game], rows[game := position];
      assert forall i | 0 <= i < |list| :: list[i] in rows && longer[i] == list[i];
      assert forall g | g in more :: g in longer;
    }
  }

  lemma AbsentUnnumbered(rows: Rows, list: seq<Game>, game: Game)
    requires Numbers(rows, list) && (game in rows ==> rows[game] < 0)
    ensures game !in list
  {
  }
}
