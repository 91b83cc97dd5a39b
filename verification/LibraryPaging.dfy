/** Paging through the catalog while scans go on: why a cursor keeps its place. */
module LibraryPaging {
  import opened Bytes
  import opened Wrappers
  import opened GameId
  import Sha256
  import opened LibraryQuery
  import LibraryScan

  /** What a scan is run with: the usable systems, the directories found for them, the files around. */
  datatype Scan = Scan(rows: seq<LibraryScan.System>, roots: seq<Option<LibraryScan.Entry>>, disk: LibraryScan.Disk)

  /** The scan is one that succeeds, on a file system where no name is empty or contains a slash. */
  ghost predicate Usable(scan: Scan) {
    && |scan.roots| == |scan.rows|
    && forall i | 0 <= i < |scan.rows| ::
         ValidSystem(scan.rows[i].id) && (scan.roots[i].Some? ==> LibraryScan.NamesPlain(scan.roots[i].value))
  }

  ghost function Scanned(scan: Scan, games: map<Id, Row>): map<Id, Row>
    requires |scan.roots| == |scan.rows|
  {
    var found := LibraryScan.AllFound(scan.rows, scan.roots, scan.disk, |scan.rows|);
    LibraryScan.Swept(games + found, LibraryScan.Ids(scan.rows, |scan.rows|), found.Keys)
  }

  ghost predicate AllUsable(scans: seq<Scan>) {
    forall i | 0 <= i < |scans| :: Usable(scans[i])
  }

  /** The games after these scans, one after the other. */
  ghost function AfterScans(scans: seq<Scan>, games: map<Id, Row>): map<Id, Row>
    requires AllUsable(scans)
  {
    if scans == [] then games else Scanned(scans[|scans| - 1], AfterScans(scans[..|scans| - 1], games))
  }

  /** From one catalog to the next any number of scans may have run. */
  ghost predicate Follows(before: map<Id, Row>, after: map<Id, Row>) {
    exists scans :: AllUsable(scans) && after == AfterScans(scans, before)
  }

  ghost predicate ByScans(catalogs: seq<Catalog>) {
    && (catalogs != [] ==> LibraryScan.AllKeyed(catalogs[0].games))
    && forall i | 0 <= i < |catalogs| - 1 :: Follows(catalogs[i].games, catalogs[i + 1].games)
  }

  /** Two different games of these catalogs have preimages with the same SHA-256 digest. */
  ghost predicate Collision(catalogs: seq<Catalog>) {
    exists i, j, id |
      0 <= i < |catalogs| && 0 <= j < |catalogs| && id in catalogs[i].games && id in catalogs[j].games ::
      Collide(catalogs[i].games[id], catalogs[j].games[id])
  }

  ghost predicate Collide(a: Row, b: Row) {
    && Preimage(a.system, a.path) != Preimage(b.system, b.path)
    && Sha256.Digest(Preimage(a.system, a.path)) == Sha256.Digest(Preimage(b.system, b.path))
  }

  /** A collision shows two different texts with the same digest. */
  lemma CollisionMeans(catalogs: seq<Catalog>) returns (p: ByteString, q: ByteString)
    requires Collision(catalogs)
    ensures p != q && Sha256.Digest(p) == Sha256.Digest(q)
  {
    hide Preimage, Sha256.Digest;
    var i, j, id :|
      0 <= i < |catalogs| && 0 <= j < |catalogs| && id in catalogs[i].games && id in catalogs[j].games &&
      Collide(catalogs[i].games[id], catalogs[j].games[id]);
    var a, b := catalogs[i].games[id], catalogs[j].games[id];
    p, q := Preimage(a.system, a.path), Preimage(b.system, b.path);
  }

  /** The sort title under which a game is first seen. */
  function FirstTitle(catalogs: seq<Catalog>, id: Id): ByteString {
    if catalogs == [] then []
    else if id in catalogs[0].games then catalogs[0].games[id].sortTitle
    else FirstTitle(catalogs[1..], id)
  }

  lemma {:induction false} AllKeyedAlong(catalogs: seq<Catalog>, n: nat)
    requires ByScans(catalogs) && n < |catalogs|
    ensures LibraryScan.AllKeyed(catalogs[n].games)
  {
    hide LibraryScan.AllKeyed, Follows;
    if n > 0 {
      AllKeyedAlong(catalogs, n - 1);
      assert Follows(catalogs[n - 1].games, catalogs[n - 1 + 1].games);
      FollowsKeeps(catalogs[n - 1].games, catalogs[n].games);
    }
  }

  lemma {:induction false} FollowsKeeps(before: map<Id, Row>, after: map<Id, Row>)
    requires Follows(before, after)
    ensures LibraryScan.AllKeyed(before) ==> LibraryScan.AllKeyed(after)
    ensures before.Keys <= after.Keys
  {
    hide LibraryScan.AllKeyed, AllUsable, AfterScans;
    var scans :| AllUsable(scans) && after == AfterScans(scans, before);
    ScansKeep(scans, before);
  }

  lemma {:induction false} ScansKeep(scans: seq<Scan>, games: map<Id, Row>)
    requires AllUsable(scans)
    ensures LibraryScan.AllKeyed(games) ==> LibraryScan.AllKeyed(AfterScans(scans, games))
    ensures games.Keys <= AfterScans(scans, games).Keys
  {
    hide LibraryScan.AllKeyed, Usable, Scanned;
    if scans != [] {
      var n := |scans| - 1;
      assert Usable(scans[n]);
      ScansKeep(scans[..n], games);
      ScanKeeps(scans[n], AfterScans(scans[..n], games));
    }
  }

  lemma {:induction false} ScanKeeps(scan: Scan, games: map<Id, Row>)
    requires Usable(scan)
    ensures LibraryScan.AllKeyed(games) ==> LibraryScan.AllKeyed(Scanned(scan, games))
    ensures games.Keys <= Scanned(scan, games).Keys
  {
    hide LibraryScan.AllKeyed, LibraryScan.AllFound, LibraryScan.Ids, LibraryScan.NamesPlain, LibraryScan.Gone;
    if LibraryScan.AllKeyed(games) {
      LibraryScan.ScanKeyed(games, scan.rows, scan.roots, scan.disk);
    }
  }

  lemma {:induction false} FirstSeen(catalogs: seq<Catalog>, id: Id, n: nat) returns (first: nat)
    requires n < |catalogs| && id in catalogs[n].games
    ensures first <= n && id in catalogs[first].games && FirstTitle(catalogs, id) == catalogs[first].games[id].sortTitle
  {
    if id in catalogs[0].games {
      first := 0;
    } else {
      first := FirstSeen(catalogs[1..], id, n - 1);
      first := first + 1;
    }
  }

  lemma {:induction false} TitleStays(catalogs: seq<Catalog>, id: Id, i: nat, j: nat)
    requires ByScans(catalogs) && i < |catalogs| && j < |catalogs|
    requires id in catalogs[i].games && id in catalogs[j].games
    ensures Collision(catalogs) || catalogs[i].games[id].sortTitle == catalogs[j].games[id].sortTitle
  {
    hide ByScans, LibraryScan.Keyed, Preimage, Sha256.Digest;
    AllKeyedAlong(catalogs, i);
    AllKeyedAlong(catalogs, j);
    LibraryScan.TitleKept(id, catalogs[i].games[id], catalogs[j].games[id]);
    assert Collide(catalogs[i].games[id], catalogs[j].games[id]) ==> Collision(catalogs);
  }

  /**
   Titles are fixed by the scans themselves: a title is computed from the path, and the identifier
   determines the path.
   */
  lemma {:induction false} ScansFixTitles(catalogs: seq<Catalog>)
    requires ByScans(catalogs)
    ensures TitlesFixed(catalogs, id => FirstTitle(catalogs, id)) || Collision(catalogs)
  {
    if !Collision(catalogs) {
      forall i, id | 0 <= i < |catalogs| && id in catalogs[i].games
        ensures catalogs[i].games[id].sortTitle == FirstTitle(catalogs, id)
      {
        hide *;
        var first := FirstSeen(catalogs, id, i);
        TitleStays(catalogs, id, i, first);
      }
    }
  }

  /** Scans never remove a row, so the row of a cursor is still there for the next page. */
  lemma {:induction false} CursorsStay(catalogs: seq<Catalog>, system: Option<ByteString>, limit: nat, pages: seq<Page>)
    requires ByScans(catalogs) && ArePages(catalogs, system, limit, pages)
    ensures IsRun(catalogs, system, limit, pages)
  {
    hide IsPage, Follows;
    forall i | 0 <= i < |pages|
      ensures CursorKnown(catalogs[i], Cursor(pages, i))
    {
      if i > 0 {
        assert Follows(catalogs[i - 1].games, catalogs[i - 1 + 1].games);
        FollowsKeeps(catalogs[i - 1].games, catalogs[i].games);
        NextCursorExists(catalogs[i - 1], system, Cursor(pages, i - 1), limit, pages[i - 1]);
      }
    }
  }

  /**
   A listing read while scans run between its pages: no game comes twice, and a finished one holds every game
   that was visible throughout, unless two games collide under SHA-256.
   */
  lemma {:induction false} ListingSurvivesScans(catalogs: seq<Catalog>, system: Option<ByteString>, limit: nat,
                                                pages: seq<Page>)
    requires ByScans(catalogs) && ArePages(catalogs, system, limit, pages)
    ensures Collision(catalogs) || forall i, j | 0 <= i < j < |Listed(pages)| :: Listed(pages)[i] != Listed(pages)[j]
    ensures Collision(catalogs) || pages[|pages| - 1].hasMore ||
            forall id | AlwaysVisible(catalogs, system, id) :: id in Listed(pages)
  {
    hide *;
    CursorsStay(catalogs, system, limit, pages);
    ScansFixTitles(catalogs);
    if !Collision(catalogs) {
      var title := id => FirstTitle(catalogs, id);
      RunNotEmpty(catalogs, system, limit, pages);
      NothingRepeats(catalogs, system, limit, pages, title);
      if !pages[|pages| - 1].hasMore {
        forall id | AlwaysVisible(catalogs, system, id)
          ensures id in Listed(pages)
        {
          NothingMissed(catalogs, system, limit, pages, title, id);
        }
      }
    }
  }

  lemma {:induction false} RunNotEmpty(catalogs: seq<Catalog>, system: Option<ByteString>, limit: nat, pages: seq<Page>)
    requires IsRun(catalogs, system, limit, pages)
    ensures |pages| > 0
  {
  }
}
