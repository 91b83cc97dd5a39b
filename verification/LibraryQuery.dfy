/** Listing games page by page, each page continuing after the last game of the one before. */
module LibraryQuery {
  import opened Bytes
  import opened Wrappers
  import opened GameId
  import opened RelativePaths

  type Id = ByteString

  datatype Row = Row(system: ByteString, path: ByteString, displayTitle: ByteString, sortTitle: ByteString,
                     image: Option<ByteString>, size: int, mtime: int, present: bool)

  /** The games by identifier, and the launch paths of the systems that are present. */
  datatype Catalog = Catalog(games: map<Id, Row>, systems: map<ByteString, ByteString>)

  const QUERY_LIMIT_MAX: nat := 100

  // ----- The order of the listing -----

  /** Bytewise comparison of texts. */
  predicate Less(a: ByteString, b: ByteString) {
    b != [] && (a == [] || a[0] < b[0] || (a[0] == b[0] && Less(a[1..], b[1..])))
  }

  datatype Key = Key(title: ByteString, id: Id)

  predicate Before(a: Key, b: Key) {
    Less(a.title, b.title) || (a.title == b.title && Less(a.id, b.id))
  }

  lemma {:induction false} LessOrder(a: ByteString, b: ByteString, c: ByteString)
    ensures !Less(a, a)
    ensures Less(a, b) && Less(b, c) ==> Less(a, c)
    ensures Less(a, b) || Less(b, a) || a == b
  {
    if a != [] {
      LessOrder(a[1..], if b == [] then [] else b[1..], if c == [] then [] else c[1..]);
      if b != [] && a[0] == b[0] && a[1..] == b[1..] {
        assert a == [a[0]] + a[1..] && b == [b[0]] + b[1..];
      }
    }
  }

  lemma {:induction false} BeforeOrder(a: Key, b: Key, c: Key)
    ensures !Before(a, a)
    ensures Before(a, b) && Before(b, c) ==> Before(a, c)
    ensures Before(a, b) || Before(b, a) || a == b
  {
    LessOrder(a.title, b.title, c.title);
    LessOrder(a.id, b.id, c.id);
  }

  /** A text comes before another that is smaller in the first byte that differs or goes on behind it. */
  lemma {:induction false} LessMeans(p: ByteString, s: ByteString, t: ByteString, x: Byte, y: Byte)
    ensures x < y ==> Less(p + [x] + s, p + [y] + t)
    ensures t != [] ==> Less(p, p + t)
    ensures !Less(p + t, p)
  {
    var a, b := p + [x] + s, p + [y] + t;
    if p == [] {
      assert p + t == t;
    } else {
      assert a[1..] == p[1..] + [x] + s && b[1..] == p[1..] + [y] + t && (p + t)[1..] == p[1..] + t;
      LessMeans(p[1..], s, t, x, y);
    }
  }

  /** Where two texts first differ the earlier one has ended or has the smaller byte. */
  lemma {:induction false} LessAt(a: ByteString, b: ByteString) returns (k: nat)
    requires Less(a, b)
    ensures k <= |a| && k < |b| && a[..k] == b[..k] && (k == |a| || a[k] < b[k])
  {
    if a == [] || a[0] < b[0] {
      k := 0;
    } else {
      k := LessAt(a[1..], b[1..]);
      k := k + 1;
      assert a[..k] == [a[0]] + a[1..][..k - 1] && b[..k] == [b[0]] + b[1..][..k - 1];
    }
  }

  // ----- One page -----

  predicate Visible(c: Catalog, system: Option<ByteString>, id: Id) {
    && id in c.games && c.games[id].present && c.games[id].system in c.systems
    && (system.Some? ==> c.games[id].system == system.value)
  }

  function KeyOf(c: Catalog, id: Id): Key
    requires id in c.games
  {
    Key(c.games[id].sortTitle, id)
  }

  /** The cursor may belong to a system that is gone, but not to a game that is. */
  predicate CursorExists(c: Catalog, system: Option<ByteString>, cursor: Option<Id>) {
    cursor.Some? ==>
      && cursor.value in c.games && c.games[cursor.value].present
      && (system.Some? ==> c.games[cursor.value].system == system.value)
  }

  /** The game stands behind the row of the cursor. Without that row nothing does. */
  predicate Matches(c: Catalog, system: Option<ByteString>, cursor: Option<Id>, id: Id) {
    && Visible(c, system, id)
    && (cursor.Some? ==> cursor.value in c.games && Before(KeyOf(c, cursor.value), KeyOf(c, id)))
  }

  predicate CursorKnown(c: Catalog, cursor: Option<Id>) {
    cursor.Some? ==> cursor.value in c.games
  }

  datatype Page = Page(games: seq<Id>, hasMore: bool, nextCursor: Option<Id>)

  ghost predicate SortedIn(c: Catalog, ids: seq<Id>) {
    && (forall i | 0 <= i < |ids| :: ids[i] in c.games)
    && (forall i, j | 0 <= i < j < |ids| :: Before(KeyOf(c, ids[i]), KeyOf(c, ids[j])))
  }

  /** The first games of the listing after the cursor, and whether there are others. */
  ghost predicate IsPage(c: Catalog, system: Option<ByteString>, cursor: Option<Id>, limit: nat, page: Page) {
    && limit > 0 && SortedIn(c, page.games) && |page.games| <= limit
    && (forall id | id in page.games :: Matches(c, system, cursor, id))
    && (forall id, g | id !in page.games && g in page.games && Matches(c, system, cursor, id) ::
          Before(KeyOf(c, g), KeyOf(c, id)))
    && (page.hasMore <==> exists id :: id !in page.games && Matches(c, system, cursor, id))
    && (page.hasMore ==> |page.games| == limit)
    && page.nextCursor == if page.hasMore then Some(page.games[limit - 1]) else None
  }

  /** The statement: matching rows in order, at most `max` of them. */
  method Select(c: Catalog, system: Option<ByteString>, cursor: Option<Id>, max: nat) returns (rows: seq<Id>)
    ensures SortedIn(c, rows) && |rows| <= max
    ensures forall id | id in rows :: Matches(c, system, cursor, id)
    ensures forall id, g | id !in rows && g in rows && Matches(c, system, cursor, id) ::
              Before(KeyOf(c, g), KeyOf(c, id))
    ensures |rows| < max ==> forall id | Matches(c, system, cursor, id) :: id in rows
  {
    rows := [];
    hide Before;
    var left := set id | id in c.games && Matches(c, system, cursor, id);
    while left != {} && |rows| < max
      invariant forall id :: Matches(c, system, cursor, id) <==> id in left || id in rows
      invariant forall id | id in left :: id in c.games && id !in rows
      invariant SortedIn(c, rows) && |rows| <= max
      invariant forall id, g | id in left && g in rows :: Before(KeyOf(c, g), KeyOf(c, id))
      decreases left
    {
      var least := Least(c, left);
      left := left - {least};
      rows := rows + [least];
    }
  }

  method Least(c: Catalog, ids: set<Id>) returns (least: Id)
    requires ids != {} && forall id | id in ids :: id in c.games
    ensures least in ids && forall id | id in ids && id != least :: Before(KeyOf(c, least), KeyOf(c, id))
  {
    least :| least in ids;
    var left := ids - {least};
    while left != {}
      invariant left <= ids && least in ids && least !in left
      invariant forall id | id in ids && id !in left && id != least :: Before(KeyOf(c, least), KeyOf(c, id))
      decreases left
    {
      var id :| id in left;
      left := left - {id};
      BeforeOrder(KeyOf(c, id), KeyOf(c, least), KeyOf(c, id));
      if Before(KeyOf(c, id), KeyOf(c, least)) {
        forall other | other in ids && other !in left && other != id
          ensures Before(KeyOf(c, id), KeyOf(c, other))
        {
          BeforeOrder(KeyOf(c, id), KeyOf(c, least), KeyOf(c, other));
        }
        least := id;
      }
    }
  }

  // ----- The result in the caller's buffers -----

  /** A text that fits a buffer of this size with its terminating zero; an empty one is taken to be damaged. */
  predicate Copied(text: ByteString, size: nat) {
    0 < |text| < size
  }

  /** Every text of the row fits its buffer. */
  predicate Fits(c: Catalog, id: Id)
    requires Visible(c, None, id)
  {
    var row := c.games[id];
    && Copied(id, ID_LENGTH + 1) && Copied(row.system, 64) && Copied(row.path, TEXT_SIZE)
    && Copied(row.displayTitle, TEXT_SIZE) && (row.image.Some? ==> Copied(row.image.value, TEXT_SIZE))
    && Copied(c.systems[row.system], TEXT_SIZE)
  }

  ghost predicate AllFit(c: Catalog, ids: seq<Id>) {
    forall i | 0 <= i < |ids| :: Visible(c, None, ids[i]) && Fits(c, ids[i])
  }

  datatype QueryError = Misuse | NotFound | Damaged | Fault

  predicate ValidRequest(system: Option<ByteString>, cursor: Option<Id>, limit: nat) {
    && (system.Some? ==> ValidSystem(system.value) && |system.value| < 64)
    && (cursor.Some? ==> ValidId(cursor.value))
    && 0 < limit <= QUERY_LIMIT_MAX
  }

  /**
   The page there is; it is returned exactly when all its texts fit, unless a statement fails. The cursor is
   tested on one catalog, the page read from another, as no transaction holds them together.
   */
  method QueryGames(tested: Catalog, c: Catalog, system: Option<ByteString>, cursor: Option<Id>, limit: nat)
    returns (r: Result<Page, QueryError>, ghost page: Page)
    ensures r == Err(Misuse) <==> !ValidRequest(system, cursor, limit)
    ensures r == Err(NotFound) <==> ValidRequest(system, cursor, limit) && !CursorExists(tested, system, cursor)
    ensures r.Ok? || r == Err(Damaged) ==> IsPage(c, system, cursor, limit, page)
    ensures r.Ok? ==> r.value == page && AllFit(c, page.games)
    ensures r == Err(Damaged) ==> !AllFit(c, page.games)
  {
    page := Page([], false, None);
    if !ValidRequest(system, cursor, limit) {
      return Err(Misuse), page;
    }
    if !CursorExists(tested, system, cursor) {
      return Err(NotFound), page;
    }
    hide Before, ValidId, ValidSystem, Fits;
    var rows := Select(c, system, cursor, limit + 1);
    ghost var more := |rows| == limit + 1;
    ghost var listed := if more then rows[..limit] else rows;
    page := Page(listed, more, if more then Some(listed[limit - 1]) else None);
    FirstRows(c, system, cursor, limit, rows, listed, more);
    forall i | 0 <= i < |rows|
      ensures Visible(c, None, rows[i])
    {
      assert rows[i] in rows && Matches(c, system, cursor, rows[i]);
    }
    hide IsPage, Visible, SortedIn;
    r := FillPage(c, rows, limit);
  }

  /** Copies row after row until the page is full. */
  method FillPage(c: Catalog, rows: seq<Id>, limit: nat) returns (r: Result<Page, QueryError>)
    requires 0 < limit && |rows| <= limit + 1 && forall i | 0 <= i < |rows| :: Visible(c, None, rows[i])
    ensures var more := |rows| == limit + 1;
            var listed := if more then rows[..limit] else rows;
            && (r.Ok? ==>
                 r.value == Page(listed, more, if more then Some(listed[limit - 1]) else None) &&
                 AllFit(c, listed))
            && (r == Err(Damaged) ==> !AllFit(c, listed)) && r != Err(Misuse) && r != Err(NotFound)
  {
    hide Fits, Visible;
    ghost var listed := if |rows| == limit + 1 then rows[..limit] else rows;
    var games: seq<Id>, hasMore := [], false;
    var at := 0;
    while at < |rows|
      invariant 0 <= at <= |rows| && games == rows[..at] && |games| <= limit && !hasMore
      invariant AllFit(c, games)
    {
      var stepped: bool := *;
      if !stepped {
        return Err(Fault);
      }
      if |games| == limit {
        hasMore := true;
        break;
      }
      if !Fits(c, rows[at]) {
        assert listed[at] == rows[at];
        return Err(Damaged);
      }
      games := games + [rows[at]];
      at := at + 1;
    }
    assert games == listed;
    return Ok(Page(games, hasMore, if hasMore && |games| > 0 then Some(games[|games| - 1]) else None));
  }

  /** The statement gave one row more than the page takes. */
  lemma {:induction false} FirstOfMore(c: Catalog, system: Option<ByteString>, cursor: Option<Id>, limit: nat,
                                       games: seq<Id>, extra: Id)
    requires limit == |games| > 0 && SortedIn(c, games + [extra])
    requires forall id | id in games + [extra] :: Matches(c, system, cursor, id)
    requires forall id, g | id !in games + [extra] && g in games + [extra] && Matches(c, system, cursor, id) ::
               Before(KeyOf(c, g), KeyOf(c, id))
    ensures IsPage(c, system, cursor, limit, Page(games, true, Some(games[limit - 1])))
  {
    hide Matches, Before;
    var rows := games + [extra];
    assert rows[limit] == extra && extra in rows && rows[..limit] == games;
    assert forall i | 0 <= i < limit :: games[i] == rows[i];
    forall i | 0 <= i < limit
      ensures games[i] != extra
    {
      BeforeOrder(KeyOf(c, rows[i]), KeyOf(c, extra), KeyOf(c, rows[i]));
    }
  }

  lemma {:induction false} FirstRows(c: Catalog, system: Option<ByteString>, cursor: Option<Id>, limit: nat,
                                     rows: seq<Id>, games: seq<Id>, hasMore: bool)
    requires limit > 0 && SortedIn(c, rows) && |rows| <= limit + 1
    requires forall id | id in rows :: Matches(c, system, cursor, id)
    requires forall id, g | id !in rows && g in rows && Matches(c, system, cursor, id) ::
               Before(KeyOf(c, g), KeyOf(c, id))
    requires |rows| < limit + 1 ==> forall id | Matches(c, system, cursor, id) :: id in rows
    requires if hasMore then |rows| == limit + 1 && games == rows[..limit] else games == rows && |rows| <= limit
    ensures IsPage(c, system, cursor, limit, Page(games, hasMore, if hasMore then Some(games[limit - 1]) else None))
  {
    hide Matches, Before;
    if hasMore {
      assert rows == games + [rows[limit]];
      hide SortedIn, IsPage;
      FirstOfMore(c, system, cursor, limit, games, rows[limit]);
    }
  }

  /**
   On a page an earlier game's sort title has the smaller byte, or has ended, where it first differs from a
   later one's; between equal sort titles the same is true of the identifiers.
   */
  lemma {:induction false} PageAscends(c: Catalog, system: Option<ByteString>, cursor: Option<Id>, limit: nat,
                                       page: Page, i: nat, j: nat)
    returns (k: nat)
    requires IsPage(c, system, cursor, limit, page) && i < j < |page.games|
    ensures page.games[i] in c.games && page.games[j] in c.games
    ensures var a, b := c.games[page.games[i]].sortTitle, c.games[page.games[j]].sortTitle;
            var s, t := if a == b then page.games[i] else a, if a == b then page.games[j] else b;
            k <= |s| && k < |t| && s[..k] == t[..k] && (k == |s| || s[k] < t[k])
  {
    hide Less;
    var a, b := KeyOf(c, page.games[i]), KeyOf(c, page.games[j]);
    assert Before(a, b);
    LessOrder(a.title, b.title, a.title);
    if a.title == b.title {
      k := LessAt(a.id, b.id);
    } else {
      k := LessAt(a.title, b.title);
    }
  }

  /**
   The games of a page are present, of a system that is there and was asked for, and behind the cursor; any
   other such game comes behind all of them, and only on a full page are there others.
   */
  lemma {:induction false} PageMeans(c: Catalog, system: Option<ByteString>, cursor: Option<Id>, limit: nat,
                                     page: Page, id: Id)
    requires IsPage(c, system, cursor, limit, page)
    ensures var asked :=
              && id in c.games && c.games[id].present && c.games[id].system in c.systems
              && (system == None || system == Some(c.games[id].system))
              && (cursor.Some? ==>
                    && cursor.value in c.games
                    && var at, title := c.games[cursor.value].sortTitle, c.games[id].sortTitle;
                    && (Less(at, title) || (at == title && Less(cursor.value, id))));
            && (id in page.games ==> asked)
            && (asked && id !in page.games ==>
                  && page.hasMore && |page.games| == limit && page.nextCursor == Some(page.games[limit - 1])
                  && forall g | g in page.games ::
                       g in c.games && Before(Key(c.games[g].sortTitle, g), Key(c.games[id].sortTitle, id)))
            && (page.hasMore <==> page.nextCursor.Some?)
  {
    hide Less;
  }

  /** What fits the caller's buffers, and what may be asked for. */
  lemma LimitsMean(c: Catalog, id: Id, system: Option<ByteString>, cursor: Option<Id>, limit: nat)
    ensures Visible(c, None, id) && Fits(c, id) <==>
            && id in c.games && c.games[id].present && c.games[id].system in c.systems
            && var row := c.games[id];
            && 0 < |id| < 79 && 0 < |row.system| < 64 && 0 < |row.path| < 512 && 0 < |row.displayTitle| < 512
            && (row.image.Some? ==> 0 < |row.image.value| < 512) && 0 < |c.systems[row.system]| < 512
    ensures ValidRequest(system, cursor, limit) <==>
            && 1 <= limit <= 100 && (cursor.Some? ==> ValidId(cursor.value))
            && (system.Some? ==> ValidSystem(system.value) && |system.value| < 64)
    ensures CursorExists(c, system, cursor) <==>
            (cursor.Some? ==>
               && cursor.value in c.games && c.games[cursor.value].present
               && (system == None || system == Some(c.games[cursor.value].system)))
  {
    hide ValidId, ValidSystem;
  }

  // ----- Page after page -----

  /** Every page was read from its catalog with the cursor of the page before; the catalog may change in between. */
  ghost predicate ArePages(catalogs: seq<Catalog>, system: Option<ByteString>, limit: nat, pages: seq<Page>) {
    && |pages| == |catalogs| > 0
    && (forall i | 0 <= i < |pages| :: IsPage(catalogs[i], system, Cursor(pages, i), limit, pages[i]))
    && (forall i | 0 <= i < |pages| - 1 :: pages[i].hasMore)
  }

  /** The same, with the row of every cursor still there when it is used. */
  ghost predicate IsRun(catalogs: seq<Catalog>, system: Option<ByteString>, limit: nat, pages: seq<Page>) {
    && ArePages(catalogs, system, limit, pages)
    && (forall i | 0 <= i < |pages| :: CursorKnown(catalogs[i], Cursor(pages, i)))
  }

  function Cursor(pages: seq<Page>, i: nat): Option<Id>
    requires i < |pages|
  {
    if i == 0 then None else pages[i - 1].nextCursor
  }

  /** A game keeps its sort title for good: it is computed from the path, and the identifier determines the path. */
  ghost predicate TitlesFixed(catalogs: seq<Catalog>, title: Id -> ByteString) {
    forall i, id | 0 <= i < |catalogs| && id in catalogs[i].games :: catalogs[i].games[id].sortTitle == title(id)
  }

  function Listed(pages: seq<Page>): seq<Id> {
    if pages == [] then [] else Listed(pages[..|pages| - 1]) + pages[|pages| - 1].games
  }

  function Place(title: Id -> ByteString, id: Id): Key {
    Key(title(id), id)
  }

  ghost predicate Ascending(ids: seq<Id>, title: Id -> ByteString) {
    forall i, j | 0 <= i < j < |ids| :: Before(Place(title, ids[i]), Place(title, ids[j]))
  }

  ghost predicate EverVisible(catalogs: seq<Catalog>, system: Option<ByteString>, id: Id) {
    exists i :: 0 <= i < |catalogs| && Visible(catalogs[i], system, id)
  }

  ghost predicate AlwaysVisible(catalogs: seq<Catalog>, system: Option<ByteString>, id: Id) {
    forall i | 0 <= i < |catalogs| :: Visible(catalogs[i], system, id)
  }

  /** The game comes after this page in the listing. */
  predicate Beyond(page: Page, title: Id -> ByteString, id: Id) {
    page.hasMore && page.nextCursor.Some? && Before(Place(title, page.nextCursor.value), Place(title, id))
  }

  ghost predicate RunListed(catalogs: seq<Catalog>, system: Option<ByteString>, pages: seq<Page>,
                            title: Id -> ByteString)
    requires pages != []
  {
    var listed, last := Listed(pages), pages[|pages| - 1];
    && Ascending(listed, title)
    && (forall id | id in listed :: EverVisible(catalogs, system, id))
    && (last.hasMore ==> last.nextCursor.Some? && listed != [] && listed[|listed| - 1] == last.nextCursor.value)
    && (forall id | AlwaysVisible(catalogs, system, id) :: id in listed || Beyond(last, title, id))
  }

  /** Up to the cursor everything is listed that was visible all along, in ascending order and nothing twice. */
  lemma {:induction false} RunLists(catalogs: seq<Catalog>, system: Option<ByteString>, limit: nat, pages: seq<Page>,
                                    title: Id -> ByteString)
    requires IsRun(catalogs, system, limit, pages) && TitlesFixed(catalogs, title)
    ensures RunListed(catalogs, system, pages, title)
  {
    hide IsPage, RunListed, PageListed;
    var n := |pages| - 1;
    PageOfRun(catalogs, system, limit, pages, title, n);
    if n == 0 {
      FirstListed(catalogs, system, pages, title);
    } else {
      RunPrefix(catalogs, system, limit, pages, n);
      assert TitlesFixed(catalogs[..n], title);
      RunLists(catalogs[..n], system, limit, pages[..n], title);
      RunStep(catalogs, system, pages, title);
    }
  }

  lemma {:induction false} PageOfRun(catalogs: seq<Catalog>, system: Option<ByteString>, limit: nat, pages: seq<Page>,
                  title: Id -> ByteString, i: nat)
    requires IsRun(catalogs, system, limit, pages) && TitlesFixed(catalogs, title) && i < |pages|
    ensures PageListed(catalogs[i], system, Cursor(pages, i), pages[i], title)
  {
    hide IsPage;
    LastPage(catalogs[i], system, Cursor(pages, i), limit, pages[i], title);
  }

  lemma {:induction false} RunPrefix(catalogs: seq<Catalog>, system: Option<ByteString>, limit: nat, pages: seq<Page>,
                                     n: nat)
    requires IsRun(catalogs, system, limit, pages) && 0 < n < |pages|
    ensures IsRun(catalogs[..n], system, limit, pages[..n]) && pages[n - 1].hasMore
  {
    hide IsPage;
    forall i | 0 <= i < n
      ensures IsPage(catalogs[..n][i], system, Cursor(pages[..n], i), limit, pages[..n][i])
      ensures CursorKnown(catalogs[..n][i], Cursor(pages[..n], i))
    {
      assert Cursor(pages[..n], i) == Cursor(pages, i);
    }
  }

  lemma {:induction false} FirstListed(catalogs: seq<Catalog>, system: Option<ByteString>, pages: seq<Page>,
                                       title: Id -> ByteString)
    requires |pages| == |catalogs| == 1 && PageListed(catalogs[0], system, None, pages[0], title)
    ensures RunListed(catalogs, system, pages, title)
  {
    assert pages[..0] == [] && Listed(pages) == pages[0].games;
    hide Listed, Before, Visible;
    assert forall id | AlwaysVisible(catalogs, system, id) :: Visible(catalogs[0], system, id);
  }

  /** One page in terms of the fixed titles. */
  ghost predicate PageListed(c: Catalog, system: Option<ByteString>, cursor: Option<Id>, page: Page,
                             title: Id -> ByteString) {
    && Ascending(page.games, title)
    && (forall id | id in page.games ::
          Visible(c, system, id) && (cursor.Some? ==> Before(Place(title, cursor.value), Place(title, id))))
    && (page.hasMore ==>
          page.games != [] && page.nextCursor == Some(page.games[|page.games| - 1]))
    && (forall id | Visible(c, system, id) ::
          || id in page.games || Beyond(page, title, id)
          || (cursor.Some? && !Before(Place(title, cursor.value), Place(title, id))))
  }

  lemma {:induction false} LastPage(c: Catalog, system: Option<ByteString>, cursor: Option<Id>, limit: nat, page: Page,
                                    title: Id -> ByteString)
    requires IsPage(c, system, cursor, limit, page) && CursorKnown(c, cursor)
    requires forall id | id in c.games :: c.games[id].sortTitle == title(id)
    ensures PageListed(c, system, cursor, page, title)
  {
    hide Before, Visible;
    forall id | Visible(c, system, id) && id !in page.games && Matches(c, system, cursor, id)
      ensures Beyond(page, title, id)
    {
      VisibleIsListed(c, system, id);
      var g := page.games[limit - 1];
      assert g in page.games && g in c.games && Before(KeyOf(c, g), KeyOf(c, id));
    }
    forall id | Visible(c, system, id) && !Matches(c, system, cursor, id)
      ensures id in c.games && cursor.Some? && !Before(Place(title, cursor.value), Place(title, id))
    {
      VisibleIsListed(c, system, id);
    }
  }

  lemma {:induction false} VisibleIsListed(c: Catalog, system: Option<ByteString>, id: Id)
    requires Visible(c, system, id)
    ensures id in c.games
  {
  }

  lemma {:induction false} RunStep(catalogs: seq<Catalog>, system: Option<ByteString>, pages: seq<Page>,
                                   title: Id -> ByteString)
    requires |pages| == |catalogs| > 1
    requires var n := |pages| - 1;
             && RunListed(catalogs[..n], system, pages[..n], title) && pages[n - 1].hasMore
             && PageListed(catalogs[n], system, Cursor(pages, n), pages[n], title)
    ensures RunListed(catalogs, system, pages, title)
  {
    var n := |pages| - 1;
    var fewer, list, games := catalogs[..n], Listed(pages[..n]), pages[n].games;
    assert Listed(pages) == list + games && pages[..n][n - 1] == pages[n - 1];
    hide Listed, Before, Visible;
    JoinLists(list, games, title, pages[n - 1].nextCursor.value);
    forall id | id in list + games
      ensures EverVisible(catalogs, system, id)
    {
      if id in list {
        var i :| 0 <= i < |fewer| && Visible(fewer[i], system, id);
        assert catalogs[i] == fewer[i];
      } else {
        assert Visible(catalogs[n], system, id);
      }
    }
    forall id | AlwaysVisible(catalogs, system, id)
      ensures id in list + games || Beyond(pages[n], title, id)
    {
      assert AlwaysVisible(fewer, system, id);
      assert Visible(catalogs[n], system, id);
    }
  }

  lemma {:induction false} JoinLists(list: seq<Id>, games: seq<Id>, title: Id -> ByteString, cursor: Id)
    requires Ascending(list, title) && Ascending(games, title)
    requires list != [] && list[|list| - 1] == cursor
    requires forall id | id in games :: Before(Place(title, cursor), Place(title, id))
    ensures Ascending(list + games, title)
  {
    var all := list + games;
    forall i, j | 0 <= i < j < |all|
      ensures Before(Place(title, all[i]), Place(title, all[j]))
    {
      if i < |list| <= j {
        assert all[j] in games;
        BeforeOrder(Place(title, all[i]), Place(title, cursor), Place(title, all[j]));
      }
    }
  }

  /** No game is listed twice, however the catalog changes between the pages. */
  lemma {:induction false} NothingRepeats(catalogs: seq<Catalog>, system: Option<ByteString>, limit: nat,
                                          pages: seq<Page>,
                       title: Id -> ByteString)
    requires IsRun(catalogs, system, limit, pages) && TitlesFixed(catalogs, title)
    ensures forall i, j | 0 <= i < j < |Listed(pages)| :: Listed(pages)[i] != Listed(pages)[j]
  {
    RunLists(catalogs, system, limit, pages, title);
    var listed := Listed(pages);
    forall i, j | 0 <= i < j < |listed|
      ensures listed[i] != listed[j]
    {
      BeforeOrder(Place(title, listed[i]), Place(title, listed[j]), Place(title, listed[i]));
    }
  }

  /** A finished run lists every game that was visible all along. */
  lemma {:induction false} NothingMissed(catalogs: seq<Catalog>, system: Option<ByteString>, limit: nat,
                                         pages: seq<Page>,
                      title: Id -> ByteString, id: Id)
    requires IsRun(catalogs, system, limit, pages) && TitlesFixed(catalogs, title)
    requires !pages[|pages| - 1].hasMore && AlwaysVisible(catalogs, system, id)
    ensures id in Listed(pages)
  {
    RunLists(catalogs, system, limit, pages, title);
  }

  // ----- Reading everything from a catalog that does not change -----

  function TitleIn(c: Catalog): Id -> ByteString {
    id => if id in c.games then c.games[id].sortTitle else []
  }

  function Same(c: Catalog, n: nat): seq<Catalog> {
    seq(n, _ => c)
  }

  lemma {:induction false} ListedVisible(c: Catalog, system: Option<ByteString>, limit: nat, pages: seq<Page>)
    requires IsRun(Same(c, |pages|), system, limit, pages)
    ensures RunListed(Same(c, |pages|), system, pages, TitleIn(c)) && TitlesFixed(Same(c, |pages|), TitleIn(c))
    ensures forall id | id in Listed(pages) :: Visible(c, system, id) && id in c.games
  {
    var catalogs := Same(c, |pages|);
    RunLists(catalogs, system, limit, pages, TitleIn(c));
    hide IsRun, Before;
    forall id | id in Listed(pages)
      ensures Visible(c, system, id)
    {
      var i :| 0 <= i < |catalogs| && Visible(catalogs[i], system, id);
    }
  }

  /** The pages together are the sorted list of the visible games. */
  lemma {:induction false} WholeListing(c: Catalog, system: Option<ByteString>, limit: nat, pages: seq<Page>)
    requires IsRun(Same(c, |pages|), system, limit, pages) && !pages[|pages| - 1].hasMore
    ensures SortedIn(c, Listed(pages))
    ensures forall id :: id in Listed(pages) <==> Visible(c, system, id)
  {
    ListedVisible(c, system, limit, pages);
    hide IsRun, Before, Listed;
    assert forall id | Visible(c, system, id) :: AlwaysVisible(Same(c, |pages|), system, id);
    AscendingIsSorted(c, Listed(pages));
  }

  lemma {:induction false} AscendingIsSorted(c: Catalog, ids: seq<Id>)
    requires Ascending(ids, TitleIn(c)) && forall id | id in ids :: id in c.games
    ensures SortedIn(c, ids)
  {
    hide Before;
    forall i, j | 0 <= i < j < |ids|
      ensures Before(KeyOf(c, ids[i]), KeyOf(c, ids[j]))
    {
      assert Before(Place(TitleIn(c), ids[i]), Place(TitleIn(c), ids[j]));
    }
  }

  /** Reading on never fails for want of the cursor, and ends: there are at most as many pages as games, plus one. */
  lemma {:induction false} ListingEnds(c: Catalog, system: Option<ByteString>, limit: nat, pages: seq<Page>)
    requires IsRun(Same(c, |pages|), system, limit, pages)
    ensures pages[|pages| - 1].hasMore ==> CursorExists(c, system, pages[|pages| - 1].nextCursor)
    ensures |pages| <= |c.games| + 1
  {
    var n := |pages| - 1;
    NextCursorExists(c, system, Cursor(pages, n), limit, pages[n]);
    hide *;
    ListedVisible(c, system, limit, pages);
    NothingRepeats(Same(c, |pages|), system, limit, pages, TitleIn(c));
    PagesFilled(Same(c, |pages|), system, limit, pages);
    DistinctFit(Listed(pages), c.games.Keys);
  }

  lemma {:induction false} NextCursorExists(c: Catalog, system: Option<ByteString>, cursor: Option<Id>, limit: nat,
                                            page: Page)
    requires IsPage(c, system, cursor, limit, page)
    ensures page.hasMore ==> CursorExists(c, system, page.nextCursor)
  {
    hide Before;
    if page.hasMore {
      assert page.games[limit - 1] in page.games;
    }
  }

  lemma {:induction false} PagesFilled(catalogs: seq<Catalog>, system: Option<ByteString>, limit: nat, pages: seq<Page>)
    requires IsRun(catalogs, system, limit, pages)
    ensures |pages| <= |Listed(pages)| + if pages[|pages| - 1].hasMore then 0 else 1
  {
    var n := |pages| - 1;
    assert IsPage(catalogs[n], system, Cursor(pages, n), limit, pages[n]);
    if n > 0 {
      RunPrefix(catalogs, system, limit, pages, n);
      hide IsPage;
      PagesFilled(catalogs[..n], system, limit, pages[..n]);
      assert pages[..n][n - 1] == pages[n - 1];
    }
  }

  lemma {:induction false} DistinctFit(ids: seq<Id>, all: set<Id>)
    requires forall id | id in ids :: id in all
    requires forall i, j | 0 <= i < j < |ids| :: ids[i] != ids[j]
    ensures |ids| <= |all|
  {
    if ids != [] {
      var last := ids[|ids| - 1];
      DistinctFit(ids[..|ids| - 1], all - {last});
    }
  }
}
