/**
 * The library service: the catalog of titles kept in `library.json` and the
 * operations that add and remove titles and chapters, touching the catalog,
 * the folders on disk and the web scraper in the source's order.
 *
 * Each operation is a method on `Library` (whose `titles` field is the
 * catalog file's content) taking the `FileSystem` it works on. Every method
 * is specified by a function from the old `Store` (catalog and disk) to the
 * reply and the new `Store`; the lemmas about those functions carry the
 * properties. A panic ends the call with `Panic`, and whatever the call had
 * already written to disk stays written.
 */
module Catalog {
  import opened Results
  import opened Numbers
  import opened Story
  import Storage
  import Web
  import Timestamp

  /** Why a library call did not complete. */
  datatype Failure =
    | ScrapeFailed(failure: Web.ScoutFailure)       // `scout_title` panicked
    | StorageFailed                                 // a storage helper panicked
    | CoverUnreachable                              // the cover request failed, returned with `?`
    | NoSuchTitle                                   // `unwrap` of a missing title
    | NoSuchChapter                                 // `unwrap` of a missing chapter
    | DownloadFailed(status: Web.DownloadStatus)    // `unwrap` of the chapter download's outcome

  /** How a library call ends: with a value, with an error returned to the caller, or with a panic. */
  datatype Reply<T> = Done(value: T) | Error(why: Failure) | Panic(why: Failure)

  /** The persistent state a library call reads and writes: the catalog and the disk. */
  datatype Store = Store(titles: seq<Title>, disk: Storage.Disk)

  // ---------------------------------------------------------------------------
  // Lookups

  /** `position(|t| t.id == id)`: the index of the first title with this id. */
  function PositionById(ts: seq<Title>, id: u32): (r: Option<nat>)
    ensures r.Some? ==> r.value < |ts| && ts[r.value].id == id
    ensures r.Some? ==> forall k :: 0 <= k < r.value ==> ts[k].id != id
    ensures r.None? <==> forall k :: 0 <= k < |ts| ==> ts[k].id != id
  {
    if ts == [] then None
    else if ts[0].id == id then Some(0)
    else match PositionById(ts[1..], id)
      case None => None
      case Some(k) => Some(k + 1)
  }

  /** `position(|t| t.url == url)`: the index of the first title with this url. */
  function PositionByUrl(ts: seq<Title>, url: string): (r: Option<nat>)
    ensures r.Some? ==> r.value < |ts| && ts[r.value].url == url
    ensures r.Some? ==> forall k :: 0 <= k < r.value ==> ts[k].url != url
    ensures r.None? <==> forall k :: 0 <= k < |ts| ==> ts[k].url != url
  {
    if ts == [] then None
    else if ts[0].url == url then Some(0)
    else match PositionByUrl(ts[1..], url)
      case None => None
      case Some(k) => Some(k + 1)
  }

  /** `get_title_by_id`: a copy of the first title with this id, if any. */
  function GetTitleById(id: u32, ts: seq<Title>): (r: Option<Title>)
    ensures r.Some? ==> exists i :: 0 <= i < |ts| && ts[i] == r.value && r.value.id == id
                          && forall k :: 0 <= k < i ==> ts[k].id != id
    ensures r.None? <==> forall t :: t in ts ==> t.id != id
  {
    match PositionById(ts, id)
    case None => None
    case Some(i) => Some(ts[i])
  }

  /** `get_title_by_url`: a copy of the first title with this url, if any. */
  function GetTitleByUrl(url: string, ts: seq<Title>): (r: Option<Title>)
    ensures r.Some? ==> exists i :: 0 <= i < |ts| && ts[i] == r.value && r.value.url == url
                          && forall k :: 0 <= k < i ==> ts[k].url != url
    ensures r.None? <==> forall t :: t in ts ==> t.url != url
  {
    match PositionByUrl(ts, url)
    case None => None
    case Some(i) => Some(ts[i])
  }

  // ---------------------------------------------------------------------------
  // Catalog invariants

  /** No two titles share an id. */
  predicate UniqueIds(ts: seq<Title>) {
    forall i, j :: 0 <= i < |ts| && 0 <= j < |ts| && i != j ==> ts[i].id != ts[j].id
  }

  /** No two titles share a url. */
  predicate UniqueUrls(ts: seq<Title>) {
    forall i, j :: 0 <= i < |ts| && 0 <= j < |ts| && i != j ==> ts[i].url != ts[j].url
  }

  // ---------------------------------------------------------------------------
  // Fresh ids

  /** The ids in use. */
  function Ids(ts: seq<Title>): set<int> {
    set i | 0 <= i < |ts| :: ts[i].id as int
  }

  /** `id` is the smallest number no title uses. */
  predicate IsSmallestFree(ts: seq<Title>, id: int) {
    0 <= id && id !in Ids(ts) && forall k :: 0 <= k < id ==> k in Ids(ts)
  }

  lemma {:induction false} IdsCount(ts: seq<Title>)
    ensures |Ids(ts)| <= |ts|
  {
    if ts != [] {
      var init := ts[..|ts| - 1];
      IdsCount(init);
      assert Ids(ts) == Ids(init) + {ts[|ts| - 1].id as int} by {
        forall x | x in Ids(ts)
          ensures x in Ids(init) + {ts[|ts| - 1].id as int}
        {
          var i :| 0 <= i < |ts| && x == ts[i].id as int;
          if i < |ts| - 1 {
            assert init[i] == ts[i];
          }
        }
      }
    }
  }

  /** Pigeonhole: a set holding all of `0..n-1` has at least `n` elements. */
  lemma {:induction false} CoveredCount(ids: set<int>, n: nat)
    requires forall k :: 0 <= k < n ==> k in ids
    ensures n <= |ids|
  {
    if n > 0 {
      CoveredCount(ids - {n - 1}, n - 1);
    }
  }

  /** The ids of `ts` cannot cover more than `|ts|` numbers from 0 up. */
  lemma CoveredPrefixBound(ts: seq<Title>, n: nat)
    requires forall k :: 0 <= k < n ==> k in Ids(ts)
    ensures n <= |ts|
  {
    CoveredCount(Ids(ts), n);
    IdsCount(ts);
  }

  /** The first free id at or after `k`, when every id below `k` is taken. */
  function FreeFrom(ts: seq<Title>, k: nat): (r: nat)
    requires forall j :: 0 <= j < k ==> j in Ids(ts)
    ensures k <= r <= |ts| && IsSmallestFree(ts, r)
    decreases |ts| - k
  {
    CoveredPrefixBound(ts, k);
    if k !in Ids(ts) then k
    else
      CoveredPrefixBound(ts, k + 1);
      FreeFrom(ts, k + 1)
  }

  /** The smallest id no title uses; it is at most the number of titles. */
  function SmallestFreeId(ts: seq<Title>): (r: nat)
    ensures IsSmallestFree(ts, r) && r <= |ts|
  {
    FreeFrom(ts, 0)
  }

  lemma SmallestFreeUnique(ts: seq<Title>, a: int, b: int)
    requires IsSmallestFree(ts, a) && IsSmallestFree(ts, b)
    ensures a == b
  {
  }

  /**
   * `get_new_id`: counts up from 0 until an id no title uses. The catalog
   * holds fewer than 2^32 titles, so the count never passes `u32::MAX`.
   */
  method GetNewId(ts: seq<Title>) returns (newId: u32)
    requires |ts| < U32_LIMIT
    ensures IsSmallestFree(ts, newId)
    ensures newId == SmallestFreeId(ts)
  {
    var ids := Ids(ts);
    newId := 0;
    while newId in ids
      invariant forall k :: 0 <= k < newId ==> k in ids
      invariant newId <= |ts|
      decreases |ts| - newId
    {
      CoveredPrefixBound(ts, newId + 1);
      newId := newId + 1;
    }
    SmallestFreeUnique(ts, newId, SmallestFreeId(ts));
  }

  // ---------------------------------------------------------------------------
  // Building and removing catalog entries

  /** A new title's chapters: link `i` becomes chapter `i as u32`. */
  function BuildChapters(links: seq<Web.Link>): seq<Chapter> {
    seq(|links|, i requires 0 <= i < |links| => NewChapter(AsU32(i), links[i].0, links[i].1))
  }

  /**
   * Each chapter keeps its link's text and target, and its id is the link's
   * position cut to 32 bits: the position itself below 2^32, so with at most
   * 2^32 links the ids are distinct.
   */
  lemma BuildChaptersSpec(links: seq<Web.Link>)
    ensures var cs := BuildChapters(links);
      && |cs| == |links|
      && (forall i :: 0 <= i < |cs| ==> cs[i].description == links[i].0 && cs[i].url == links[i].1)
      && (forall i :: 0 <= i < |cs| ==> (cs[i].id - i) % U32_LIMIT == 0 && (i < U32_LIMIT ==> cs[i].id == i))
      && (|links| <= U32_LIMIT ==> forall i, j :: 0 <= i < j < |cs| ==> cs[i].id != cs[j].id)
  {
  }

  /** `Vec::swap_remove(i)`: the last element takes the place of element `i`. */
  function SwapRemove<T>(s: seq<T>, i: nat): seq<T>
    requires i < |s|
  {
    s[i := s[|s| - 1]][..|s| - 1]
  }

  /** Exactly element `i` is gone; the others are kept, all in place except the former last one. */
  lemma SwapRemoveSpec<T>(s: seq<T>, i: nat)
    requires i < |s|
    ensures var r := SwapRemove(s, i);
      && |r| == |s| - 1
      && (forall k :: 0 <= k < |r| && k != i ==> r[k] == s[k])
      && (i < |r| ==> r[i] == s[|s| - 1])
      && multiset(r) + multiset{s[i]} == multiset(s)
  {
    var r := SwapRemove(s, i);
    var last := |s| - 1;
    if i == last {
      assert s == r + [s[i]];
    } else {
      var mid := s[i + 1..last];
      assert s == s[..i] + [s[i]] + mid + [s[last]];
      assert r == s[..i] + [s[last]] + mid;
    }
  }

  /** Removing one element keeps ids and urls unique. */
  lemma SwapRemoveKeepsUnique(ts: seq<Title>, i: nat)
    requires i < |ts|
    ensures UniqueIds(ts) ==> UniqueIds(SwapRemove(ts, i))
    ensures UniqueUrls(ts) ==> UniqueUrls(SwapRemove(ts, i))
  {
    var r := SwapRemove(ts, i);
    SwapRemoveSpec(ts, i);
    forall a, b | 0 <= a < |r| && 0 <= b < |r| && a != b
      ensures var fa := if a == i then |ts| - 1 else a;
              var fb := if b == i then |ts| - 1 else b;
              r[a] == ts[fa] && r[b] == ts[fb] && fa != fb
    {
    }
  }

  // ---------------------------------------------------------------------------
  // The operations as functions of the store

  /**
   * `add_title`: a catalogued url gives back its title and changes nothing;
   * otherwise the page is scraped, the title folder created, the cover
   * fetched and written, and the title appended to the catalog. `page` is
   * the title page as fetched, `coverFetched` whether the cover request
   * succeeded, and `today` the clock's date.
   */
  function AddTitleSpec(s: Store, url: string, page: Option<Web.TitlePage>, coverFetched: bool, today: Timestamp.Date)
    : (Reply<Title>, Store)
    requires |s.titles| < U32_LIMIT && Timestamp.Representable(today)
  {
    match GetTitleByUrl(url, s.titles)
    case Some(t) => (Done(t), s)
    case None =>
      match Web.ScoutResult(page)
      case Err(e) => (Panic(ScrapeFailed(e)), s)
      case Ok(scouted) =>
        var id: u32 := SmallestFreeId(s.titles);
        var t := NewTitle(id, scouted.title, Timestamp.GetTime(today), url, BuildChapters(scouted.links));
        var folder := Storage.EnsureDir(s.disk, Storage.TitlePath(id));
        if !folder.ok then (Panic(StorageFailed), Store(s.titles, folder.disk))
        else if !coverFetched then (Error(CoverUnreachable), Store(s.titles, folder.disk))
        else
          var cover := Storage.WriteFile(folder.disk, Storage.CoverPath(id));
          if !cover.ok then (Panic(StorageFailed), Store(s.titles, cover.disk))
          else (Done(t), Store(s.titles + [t], cover.disk))
  }

  /**
   * `remove_title_by_id`: the title folder is removed first (a missing folder
   * is tolerated), then the first title with this id is swap-removed from the
   * catalog; an id not in the catalog panics after the folder is gone.
   */
  function RemoveByIdSpec(s: Store, id: u32): (Reply<()>, Store) {
    var removed := Storage.RemoveTree(s.disk, Storage.TitlePath(id));
    if !removed.ok then (Panic(StorageFailed), Store(s.titles, removed.disk))
    else match PositionById(s.titles, id)
      case None => (Panic(NoSuchTitle), Store(s.titles, removed.disk))
      case Some(i) => (Done(()), Store(SwapRemove(s.titles, i), removed.disk))
  }

  /** `remove_title_by_url` as written: the url's POSITION in the catalog is passed on as the id. */
  function RemoveByUrlSpec(s: Store, url: string): (Reply<()>, Store) {
    match PositionByUrl(s.titles, url)
    case None => (Done(()), s)
    case Some(i) => RemoveByIdSpec(s, AsU32(i))
  }

  /** `remove_title_by_url` as intended: the id of the title found by url is passed on. */
  function RemoveByUrlFixedSpec(s: Store, url: string): (Reply<()>, Store) {
    match PositionByUrl(s.titles, url)
    case None => (Done(()), s)
    case Some(i) => RemoveByIdSpec(s, s.titles[i].id)
  }

  /**
   * `add_chapter`: the chapter folder is created first; then the title and
   * the chapter are looked up (each missing one panics) and the chapter's
   * images are downloaded into `{TITLE_PATH}/{title}/{chapter}`, a failed
   * download panicking. `page` stands for the chapter page as fetched (it is
   * not tied to the chapter's url), `outcomes` how each download task ends. On success the
   * reply holds the spawned download jobs.
   */
  function AddChapterSpec(s: Store, titleId: u32, chapterId: u32,
                          page: Option<seq<Web.Element>>, outcomes: seq<Web.TaskOutcome>)
    : (Reply<seq<Web.Job>>, Store)
    requires page.Some? ==> |outcomes| == |page.value|
  {
    var folder := Storage.EnsureDir(s.disk, Storage.ChapterPath(titleId, chapterId));
    var after := Store(s.titles, folder.disk);
    if !folder.ok then (Panic(StorageFailed), after)
    else match GetTitleById(titleId, s.titles)
      case None => (Panic(NoSuchTitle), after)
      case Some(title) =>
        if chapterId as int >= |title.chapters| then (Panic(NoSuchChapter), after)
        else
          var (jobs, status) := Web.DownloadPlan(Storage.ChapterDirText(titleId, chapterId), page, outcomes);
          if status == Web.Completed then (Done(jobs), after)
          else (Panic(DownloadFailed(status)), after)
  }

  /** `remove_chapter`: removes the chapter folder (a missing one is tolerated); the catalog is not touched. */
  function RemoveChapterSpec(s: Store, titleId: u32, chapterId: u32): (Reply<()>, Store) {
    var removed := Storage.RemoveTree(s.disk, Storage.ChapterPath(titleId, chapterId));
    (if removed.ok then Done(()) else Panic(StorageFailed), Store(s.titles, removed.disk))
  }

  // ---------------------------------------------------------------------------
  // Properties of the operations

  /** Adding a url that is already catalogued returns the first title with that url and changes nothing. */
  lemma AddTitleExistingUrl(s: Store, url: string, page: Option<Web.TitlePage>, coverFetched: bool, today: Timestamp.Date)
    requires |s.titles| < U32_LIMIT && Timestamp.Representable(today)
    requires exists i :: 0 <= i < |s.titles| && s.titles[i].url == url
    ensures var (r, s') := AddTitleSpec(s, url, page, coverFetched, today);
      && s' == s && r.Done? && r.value.url == url && r.value in s.titles
      && r.value == GetTitleByUrl(url, s.titles).value
  {
  }

  /**
   * A new url is added exactly when the page scrapes, the title folder can
   * be made, the cover was fetched and the cover file can be written. It is
   * then appended as one title with the smallest free id, today's date, the
   * scraped name and chapters numbered by position, each holding its link's
   * text and url; its folder and its cover exist afterwards.
   */
  lemma AddTitleAppends(s: Store, url: string, page: Option<Web.TitlePage>, coverFetched: bool, today: Timestamp.Date)
    requires |s.titles| < U32_LIMIT && Timestamp.Representable(today)
    requires forall i :: 0 <= i < |s.titles| ==> s.titles[i].url != url
    ensures var (r, s') := AddTitleSpec(s, url, page, coverFetched, today);
      var id := SmallestFreeId(s.titles);
      var folder := Storage.EnsureDir(s.disk, Storage.TitlePath(id));
      r.Done? <==> Web.ScoutResult(page).Ok? && folder.ok && coverFetched
                   && Storage.WriteFile(folder.disk, Storage.CoverPath(id)).ok
    ensures var (r, s') := AddTitleSpec(s, url, page, coverFetched, today);
      r.Done? ==>
        var t := r.value;
        && Web.ScoutResult(page).Ok?
        && s'.titles == s.titles + [t]
        && t.url == url && t.title == Web.ScoutResult(page).value.title
        && IsSmallestFree(s.titles, t.id)
        && Timestamp.ParseDate(t.updated) == Some(today)
        && |t.chapters| == |Web.ScoutResult(page).value.links|
        && (forall i :: 0 <= i < |t.chapters| && i < U32_LIMIT ==>
              && t.chapters[i].id == i
              && t.chapters[i].description == Web.ScoutResult(page).value.links[i].0
              && t.chapters[i].url == Web.ScoutResult(page).value.links[i].1)
        && Storage.TitlePath(t.id) in s'.disk
        && Storage.CoverPath(t.id) in s'.disk && s'.disk[Storage.CoverPath(t.id)] == Storage.File
  {
    var (r, s') := AddTitleSpec(s, url, page, coverFetched, today);
    if r.Done? {
      BuildChaptersSpec(Web.ScoutResult(page).value.links);
      Storage.FolderThenCover(s.disk, SmallestFreeId(s.titles));
    }
  }

  /** However `add_title` ends, the catalog is the old one or the old one plus the new title, and ids and urls stay unique. */
  lemma AddTitleKeepsUnique(s: Store, url: string, page: Option<Web.TitlePage>, coverFetched: bool, today: Timestamp.Date)
    requires |s.titles| < U32_LIMIT && Timestamp.Representable(today)
    requires UniqueIds(s.titles) && UniqueUrls(s.titles)
    ensures var (r, s') := AddTitleSpec(s, url, page, coverFetched, today);
      && UniqueIds(s'.titles) && UniqueUrls(s'.titles)
      && (s'.titles == s.titles || s'.titles == s.titles + [r.value])
      && (!r.Done? ==> s'.titles == s.titles)
  {
    var (r, s') := AddTitleSpec(s, url, page, coverFetched, today);
    if s'.titles != s.titles {
      var t := r.value;
      assert t.id as int !in Ids(s.titles);
      forall i | 0 <= i < |s.titles|
        ensures s.titles[i].id != t.id && s.titles[i].url != t.url
      {
        assert s.titles[i].id as int in Ids(s.titles);
      }
    }
  }

  /** A failed cover request returns an error but leaves the new title folder behind, uncatalogued. */
  lemma AddTitleCoverFailureLeavesFolder(s: Store, url: string, page: Option<Web.TitlePage>, today: Timestamp.Date)
    requires |s.titles| < U32_LIMIT && Timestamp.Representable(today)
    requires forall i :: 0 <= i < |s.titles| ==> s.titles[i].url != url
    requires Web.ScoutResult(page).Ok?
    ensures var (r, s') := AddTitleSpec(s, url, page, false, today);
      var id := SmallestFreeId(s.titles);
      && s'.titles == s.titles
      && (r == Error(CoverUnreachable) <==> Storage.EnsureDir(s.disk, Storage.TitlePath(id)).ok)
      && (r == Error(CoverUnreachable) ==> Storage.TitlePath(id) in s'.disk)
      && (r.Error? || r == Panic(StorageFailed))
  {
    var id: u32 := SmallestFreeId(s.titles);
    Storage.EnsureDirSpec(s.disk, Storage.TitlePath(id));
  }

  /**
   * Removing a catalogued id removes exactly that title (the others are kept
   * and the last one moves into its place) and its folder; an uncatalogued id
   * still loses its folder, then panics with the catalog unchanged. The call
   * succeeds exactly when the folder removal does and the id is catalogued,
   * and ids and urls stay unique.
   */
  lemma RemoveByIdRemovesThatTitle(s: Store, id: u32)
    requires Storage.WellFormed(s.disk) && UniqueIds(s.titles)
    ensures var (r, s') := RemoveByIdSpec(s, id);
      && (r.Done? || r.Panic?)
      && (r.Done? <==> Storage.RemoveTree(s.disk, Storage.TitlePath(id)).ok && id as int in Ids(s.titles))
      && (r.Done? ==> id as int in Ids(s.titles) && id as int !in Ids(s'.titles) && |s'.titles| == |s.titles| - 1
                      && exists i :: 0 <= i < |s.titles| && s.titles[i].id == id
                                     && multiset(s'.titles) + multiset{s.titles[i]} == multiset(s.titles))
      && (r == Panic(NoSuchTitle) <==> Storage.RemoveTree(s.disk, Storage.TitlePath(id)).ok && id as int !in Ids(s.titles))
      && (!r.Done? ==> s'.titles == s.titles)
      && (r != Panic(StorageFailed) ==> forall q :: q in s'.disk ==> !(Storage.TitlePath(id) <= q))
      && UniqueIds(s'.titles)
      && (UniqueUrls(s.titles) ==> UniqueUrls(s'.titles))
  {
    var (r, s') := RemoveByIdSpec(s, id);
    Storage.RemoveTreeSpec(s.disk, Storage.TitlePath(id));
    var p := PositionById(s.titles, id);
    if p.Some? {
      var i := p.value;
      assert s.titles[i].id as int in Ids(s.titles);
      SwapRemoveKeepsUnique(s.titles, i);
      if r.Done? {
        SwapRemoveSpec(s.titles, i);
        var t' := SwapRemove(s.titles, i);
        forall k | 0 <= k < |t'|
          ensures t'[k].id != id
        {
          var f := if k == i then |s.titles| - 1 else k;
          assert t'[k] == s.titles[f] && f != i;
        }
      }
    }
  }

  /**
   * `remove_title_by_url` as written removes the title whose id is the url's
   * position (and panics when no title has that id), whichever url it has.
   */
  lemma RemoveByUrlRemovesPositionId(s: Store, url: string, i: nat)
    requires Storage.WellFormed(s.disk) && UniqueIds(s.titles)
    requires PositionByUrl(s.titles, url) == Some(i) && i < U32_LIMIT
    ensures var (r, s') := RemoveByUrlSpec(s, url);
      && (r.Done? <==> Storage.RemoveTree(s.disk, Storage.TitlePath(i)).ok && i in Ids(s.titles))
      && (r.Done? ==> i !in Ids(s'.titles)
                      && exists j :: 0 <= j < |s.titles| && s.titles[j].id == i
                                     && multiset(s'.titles) + multiset{s.titles[j]} == multiset(s.titles))
  {
    RemoveByIdRemovesThatTitle(s, i);
  }

  /**
   * `remove_title_by_url` as written: an unknown url returns `Ok` and changes
   * nothing, and whatever happens ids and urls stay unique.
   */
  lemma RemoveByUrlKeepsCatalogSound(s: Store, url: string)
    requires Storage.WellFormed(s.disk) && UniqueIds(s.titles) && UniqueUrls(s.titles)
    ensures var (r, s') := RemoveByUrlSpec(s, url);
      && ((forall i :: 0 <= i < |s.titles| ==> s.titles[i].url != url) ==> r == Done(()) && s' == s)
      && UniqueIds(s'.titles) && UniqueUrls(s'.titles)
  {
    match PositionByUrl(s.titles, url)
    case None =>
    case Some(i) => RemoveByIdRemovesThatTitle(s, AsU32(i));
  }

  /**
   * Finding: with titles (id 5, url "a") and (id 0, url "b") and both their
   * folders on disk, removing url "a" removes folder `titles/0` and the title
   * with url "b", while folder `titles/5` and the title with url "a" stay.
   */
  lemma RemoveByUrlMisdirected()
    ensures var a := Title(5, "A", "2024-01-01", "a", []);
            var b := Title(0, "B", "2024-01-01", "b", []);
            var m := map[[Storage.TITLES] := Storage.Dir, Storage.TitlePath(0) := Storage.Dir,
                         Storage.TitlePath(5) := Storage.Dir];
            var (r, s') := RemoveByUrlSpec(Store([a, b], m), "a");
            && r == Done(()) && s'.titles == [a]
            && Storage.TitlePath(0) !in s'.disk && Storage.TitlePath(5) in s'.disk
  {
    var a := Title(5, "A", "2024-01-01", "a", []);
    var b := Title(0, "B", "2024-01-01", "b", []);
    var m := map[[Storage.TITLES] := Storage.Dir, Storage.TitlePath(0) := Storage.Dir,
                 Storage.TitlePath(5) := Storage.Dir];
    var p0, p5 := Storage.TitlePath(0), Storage.TitlePath(5);
    assert NatToString(0) == "0" && NatToString(5) == "5";
    assert !(p0 <= p5) by { assert p0[1] != p5[1]; }
    Storage.PruneSpec(m, p0);
    assert Storage.RemoveTree(m, p0) == Storage.Effect(Storage.Prune(m, p0), true);
    assert PositionById([a, b], 0) == Some(1);
    assert SwapRemove([a, b], 1) == [a];
  }

  /** With unique urls, no title left after swap-removing the one with `url` has that url. */
  lemma UrlGoneAfterSwapRemove(ts: seq<Title>, i: nat, url: string)
    requires UniqueUrls(ts) && i < |ts| && ts[i].url == url
    ensures forall t :: t in SwapRemove(ts, i) ==> t.url != url
  {
    SwapRemoveSpec(ts, i);
    var r := SwapRemove(ts, i);
    forall k | 0 <= k < |r|
      ensures r[k].url != url
    {
      var f := if k == i then |ts| - 1 else k;
      assert r[k] == ts[f] && f != i;
    }
  }

  /**
   * The corrected `remove_title_by_url`: an unknown url changes nothing; a
   * catalogued url never meets a missing id and succeeds exactly when its
   * title's folder can be removed; on success exactly the title that had the
   * url is gone (every other title is kept) and no title has the url any
   * more; ids and urls stay unique.
   */
  lemma RemoveByUrlFixedRemovesThatTitle(s: Store, url: string)
    requires Storage.WellFormed(s.disk) && UniqueIds(s.titles) && UniqueUrls(s.titles)
    ensures var (r, s') := RemoveByUrlFixedSpec(s, url);
      && ((forall i :: 0 <= i < |s.titles| ==> s.titles[i].url != url) ==> r == Done(()) && s' == s)
      && r != Panic(NoSuchTitle)
      && (forall i :: 0 <= i < |s.titles| && s.titles[i].url == url ==>
            (r.Done? <==> Storage.RemoveTree(s.disk, Storage.TitlePath(s.titles[i].id)).ok))
      && UniqueIds(s'.titles) && UniqueUrls(s'.titles)
      && (r.Done? ==> forall t :: t in s'.titles ==> t.url != url)
      && (r.Done? && s' != s ==>
            exists i :: 0 <= i < |s.titles| && s.titles[i].url == url
                        && multiset(s'.titles) + multiset{s.titles[i]} == multiset(s.titles))
  {
    var pos := PositionByUrl(s.titles, url);
    if pos.Some? {
      var i := pos.value;
      var id := s.titles[i].id;
      assert id as int in Ids(s.titles);
      assert PositionById(s.titles, id) == Some(i);
      var (r, s') := RemoveByUrlFixedSpec(s, url);
      SwapRemoveKeepsUnique(s.titles, i);
      forall j | 0 <= j < |s.titles| && s.titles[j].url == url
        ensures j == i
      {
      }
      if r.Done? {
        SwapRemoveSpec(s.titles, i);
        UrlGoneAfterSwapRemove(s.titles, i, url);
      }
    }
  }

  /**
   * `add_chapter` never changes the catalog, and it succeeds exactly when the
   * folder can be made, the first title with this id has this chapter, every
   * image has a `src` and every download task joins.
   */
  lemma AddChapterSucceedsIff(s: Store, titleId: u32, chapterId: u32, images: seq<Web.Element>, outcomes: seq<Web.TaskOutcome>)
    requires |outcomes| == |images|
    ensures var (r, s') := AddChapterSpec(s, titleId, chapterId, Some(images), outcomes);
      var title := GetTitleById(titleId, s.titles);
      && s'.titles == s.titles
      && (r.Done? <==>
            && Storage.EnsureDir(s.disk, Storage.ChapterPath(titleId, chapterId)).ok
            && title.Some? && chapterId as int < |title.value.chapters|
            && Web.AllHaveAttr(images, "src")
            && (forall i :: 0 <= i < |outcomes| ==> outcomes[i].Finished?))
      && (r.Done? ==> r.value == Web.Jobs(Storage.ChapterDirText(titleId, chapterId), images))
  {
    Web.DownloadPlanSpec(Storage.ChapterDirText(titleId, chapterId), images, outcomes);
  }

  /** A failed `add_chapter` still leaves the chapter folder behind when its creation succeeded. */
  lemma AddChapterFolderFirst(s: Store, titleId: u32, chapterId: u32, page: Option<seq<Web.Element>>, outcomes: seq<Web.TaskOutcome>)
    requires page.Some? ==> |outcomes| == |page.value|
    ensures var (r, s') := AddChapterSpec(s, titleId, chapterId, page, outcomes);
      r != Panic(StorageFailed) ==> Storage.ChapterPath(titleId, chapterId) in s'.disk
  {
    Storage.EnsureDirSpec(s.disk, Storage.ChapterPath(titleId, chapterId));
  }

  /** Removing one chapter folder leaves every other chapter folder and the catalog as they were. */
  lemma RemoveChapterKeepsOthers(s: Store, titleId: u32, chapterId: u32, otherTitle: u32, otherChapter: u32)
    requires Storage.WellFormed(s.disk)
    requires otherTitle != titleId || otherChapter != chapterId
    ensures var (r, s') := RemoveChapterSpec(s, titleId, chapterId);
      var q := Storage.ChapterPath(otherTitle, otherChapter);
      && s'.titles == s.titles
      && (q in s'.disk <==> q in s.disk)
      && (r.Done? ==> Storage.ChapterPath(titleId, chapterId) !in s'.disk)
  {
    var p := Storage.ChapterPath(titleId, chapterId);
    var q := Storage.ChapterPath(otherTitle, otherChapter);
    Storage.RemoveTreeSpec(s.disk, p);
    if p <= q {
      assert p == q;
      if otherTitle != titleId {
        Numbers.NatToStringInjective(titleId, otherTitle);
      } else {
        Numbers.NatToStringInjective(chapterId, otherChapter);
      }
    }
  }

  // ---------------------------------------------------------------------------
  // The library service

  class Library {
    /** The content of `library.json`. */
    var titles: seq<Title>

    /** The catalog invariant: no two titles share an id or a url. */
    predicate Valid()
      reads this
    {
      UniqueIds(titles) && UniqueUrls(titles)
    }

    constructor (initial: seq<Title>)
      ensures titles == initial
    {
      titles := initial;
    }

    /**
     * `add_title`. `page` is the title page as fetched, `coverFetched` whether
     * the cover request succeeded, `today` the clock's date.
     */
    method AddTitle(url: string, page: Option<Web.TitlePage>, coverFetched: bool, today: Timestamp.Date,
                    fs: Storage.FileSystem)
      returns (r: Reply<Title>)
      requires fs.Valid() && |titles| < U32_LIMIT && Timestamp.Representable(today)
      modifies this, fs
      ensures fs.Valid()
      ensures (r, Store(titles, fs.entries)) == AddTitleSpec(Store(old(titles), old(fs.entries)), url, page, coverFetched, today)
      ensures old(Valid()) ==> Valid()
    {
      if Valid() {
        AddTitleKeepsUnique(Store(titles, fs.entries), url, page, coverFetched, today);
      }
      var library := titles;
      var existing := GetTitleByUrl(url, library);
      if existing.Some? {
        return Done(existing.value);
      }
      var scouted := Web.ScoutTitle(page);
      if scouted.Err? {
        return Panic(ScrapeFailed(scouted.error));
      }
      var id := GetNewId(library);
      var title := NewTitle(id, scouted.value.title, Timestamp.GetTime(today), url, BuildChapters(scouted.value.links));
      var ok := fs.SetupTitle(title.id);
      if !ok {
        return Panic(StorageFailed);
      }
      if !coverFetched {
        return Error(CoverUnreachable);
      }
      ok := fs.SaveCover(title.id);
      if !ok {
        return Panic(StorageFailed);
      }
      library := library + [title];
      titles := library;
      r := Done(title);
    }

    /**
     * `remove_title_by_id`: the folder removal is issued twice, the second
     * time after the first has succeeded, so it finds nothing to do.
     */
    method RemoveTitleById(id: u32, fs: Storage.FileSystem) returns (r: Reply<()>)
      requires fs.Valid()
      modifies this, fs
      ensures fs.Valid()
      ensures (r, Store(titles, fs.entries)) == RemoveByIdSpec(Store(old(titles), old(fs.entries)), id)
      ensures old(Valid()) ==> Valid()
    {
      if Valid() {
        RemoveByIdRemovesThatTitle(Store(titles, fs.entries), id);
      }
      ghost var m0 := fs.entries;
      var ok := fs.RemoveTitle(id);
      if !ok {
        return Panic(StorageFailed);
      }
      Storage.RemoveTreeIdempotent(m0, Storage.TitlePath(id));
      ok := fs.RemoveTitle(id);
      assert ok;
      var library := titles;
      var index := PositionById(library, id);
      if index.None? {
        return Panic(NoSuchTitle);
      }
      var i := index.value;
      if i != |library| - 1 {
        library := library[i := library[|library| - 1]][..|library| - 1];
      } else {
        library := library[..|library| - 1];
      }
      titles := library;
      r := Done(());
    }

    /** `remove_title_by_url` as written: passes the url's position on as the id. */
    method RemoveTitleByUrl(url: string, fs: Storage.FileSystem) returns (r: Reply<()>)
      requires fs.Valid()
      modifies this, fs
      ensures fs.Valid()
      ensures (r, Store(titles, fs.entries)) == RemoveByUrlSpec(Store(old(titles), old(fs.entries)), url)
      ensures old(Valid()) ==> Valid()
    {
      if Valid() {
        RemoveByUrlKeepsCatalogSound(Store(titles, fs.entries), url);
      }
      var index := PositionByUrl(titles, url);
      if index.None? {
        return Done(());
      }
      r := RemoveTitleById(AsU32(index.value), fs);
    }

    /** `remove_title_by_url` corrected: passes on the id of the title found by url. */
    method RemoveTitleByUrlFixed(url: string, fs: Storage.FileSystem) returns (r: Reply<()>)
      requires fs.Valid()
      modifies this, fs
      ensures fs.Valid()
      ensures (r, Store(titles, fs.entries)) == RemoveByUrlFixedSpec(Store(old(titles), old(fs.entries)), url)
      ensures old(Valid()) ==> Valid()
    {
      if Valid() {
        RemoveByUrlFixedRemovesThatTitle(Store(titles, fs.entries), url);
      }
      var index := PositionByUrl(titles, url);
      if index.None? {
        return Done(());
      }
      r := RemoveTitleById(titles[index.value].id, fs);
    }

    /** `add_chapter`. `page` stands for the chapter page as fetched, `outcomes` how each download task ends. */
    method AddChapter(titleId: u32, chapterId: u32, page: Option<seq<Web.Element>>, outcomes: seq<Web.TaskOutcome>,
                      fs: Storage.FileSystem)
      returns (r: Reply<seq<Web.Job>>)
      requires fs.Valid()
      requires page.Some? ==> |outcomes| == |page.value|
      modifies fs
      ensures fs.Valid()
      ensures (r, Store(titles, fs.entries)) == AddChapterSpec(Store(titles, old(fs.entries)), titleId, chapterId, page, outcomes)
    {
      var ok := fs.SetupChapter(titleId, chapterId);
      if !ok {
        return Panic(StorageFailed);
      }
      var title := GetTitleById(titleId, titles);
      if title.None? {
        return Panic(NoSuchTitle);
      }
      if chapterId as int >= |title.value.chapters| {
        return Panic(NoSuchChapter);
      }
      var jobs, status := Web.DownloadChapter(Storage.ChapterDirText(titleId, chapterId), page, outcomes);
      if status != Web.Completed {
        return Panic(DownloadFailed(status));
      }
      r := Done(jobs);
    }

    /** `remove_chapter`. */
    method RemoveChapter(titleId: u32, chapterId: u32, fs: Storage.FileSystem) returns (r: Reply<()>)
      requires fs.Valid()
      modifies fs
      ensures fs.Valid()
      ensures (r, Store(titles, fs.entries)) == RemoveChapterSpec(Store(titles, old(fs.entries)), titleId, chapterId)
    {
      var ok := fs.DeleteChapter(titleId, chapterId);
      r := if ok then Done(()) else Panic(StorageFailed);
    }
  }
}
