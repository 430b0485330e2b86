/**
 * What the scraper does with the elements its CSS selectors match: the title
 * page's chapter anchors, title heading and cover image (`scout_title`), and
 * the chapter page's images, one download task per image (`download_chapter`).
 * Fetching pages, HTML parsing and selector matching are outside the model:
 * a fetched page is given as the sequence of elements each selector matched,
 * in document order, or `None` when the GET failed.
 */
module Web {
  import opened Results
  import opened Numbers

  /** An element matched by a selector: its text content and its attributes. */
  datatype Element = Element(text: string, attrs: map<string, string>)

  /** The title page as seen through `scout_title`'s three selectors. */
  datatype TitlePage = TitlePage(anchors: seq<Element>, headings: seq<Element>, covers: seq<Element>)

  /** A chapter link: the anchor's text and its `href`. */
  type Link = (string, string)

  /** Why `scout_title` panics. */
  datatype ScoutFailure = PageUnreachable | MissingHref | MissingTitle | MissingCover | MissingCoverSrc

  /** `scout_title`'s result: title text, cover url, chapter links oldest first. */
  datatype Scouted = Scouted(title: string, coverUrl: string, links: seq<Link>)

  predicate AllHaveAttr(es: seq<Element>, name: string) {
    forall i :: 0 <= i < |es| ==> name in es[i].attrs
  }

  /** The sequence read back to front, built by moving the last element to the front. */
  function Reversed<T>(s: seq<T>): (r: seq<T>)
    ensures |r| == |s|
  {
    if s == [] then [] else [s[|s| - 1]] + Reversed(s[..|s| - 1])
  }

  lemma {:induction false} ReversedIndex<T>(s: seq<T>, k: nat)
    requires k < |s|
    ensures Reversed(s)[k] == s[|s| - 1 - k]
  {
    if k > 0 {
      ReversedIndex(s[..|s| - 1], k - 1);
    }
  }

  /** Reversing twice gives the original order back. */
  lemma ReversedTwice<T>(s: seq<T>)
    ensures Reversed(Reversed(s)) == s
  {
    forall k | 0 <= k < |s|
      ensures Reversed(Reversed(s))[k] == s[k]
    {
      ReversedIndex(Reversed(s), k);
      ReversedIndex(s, |s| - 1 - k);
    }
  }

  /** Each anchor as (text, href), in document order. */
  function AnchorLinks(anchors: seq<Element>): (links: seq<Link>)
    requires AllHaveAttr(anchors, "href")
    ensures |links| == |anchors|
  {
    seq(|anchors|, i requires 0 <= i < |anchors| => (anchors[i].text, anchors[i].attrs["href"]))
  }

  /** What `scout_title` returns for the page, or why it panics (checked in the order the source unwraps). */
  function ScoutResult(page: Option<TitlePage>): Result<Scouted, ScoutFailure> {
    if page.None? then Err(PageUnreachable)
    else
      var p := page.value;
      if !AllHaveAttr(p.anchors, "href") then Err(MissingHref)
      else if p.headings == [] then Err(MissingTitle)
      else if p.covers == [] then Err(MissingCover)
      else if "src" !in p.covers[0].attrs then Err(MissingCoverSrc)
      else Ok(Scouted(p.headings[0].text, p.covers[0].attrs["src"], Reversed(AnchorLinks(p.anchors))))
  }

  /** The links are the anchors in reverse document order, each paired with its own `href`. */
  lemma ScoutLinksReversed(page: Option<TitlePage>, k: nat)
    requires ScoutResult(page).Ok?
    ensures var anchors, links := page.value.anchors, ScoutResult(page).value.links;
      && |links| == |anchors|
      && (k < |links| ==> links[k] == (anchors[|anchors| - 1 - k].text, anchors[|anchors| - 1 - k].attrs["href"]))
  {
    var anchors := page.value.anchors;
    if k < |anchors| {
      ReversedIndex(AnchorLinks(anchors), k);
    }
  }

  /** `scout_title` succeeds exactly when every anchor has an `href`, a title matched and the first cover has a `src`;
      then the title and cover come from the first matches. */
  lemma ScoutSucceedsIff(page: Option<TitlePage>)
    ensures ScoutResult(page).Ok? <==>
      page.Some? && AllHaveAttr(page.value.anchors, "href") && page.value.headings != []
      && page.value.covers != [] && "src" in page.value.covers[0].attrs
    ensures ScoutResult(page).Ok? ==>
      ScoutResult(page).value.title == page.value.headings[0].text
      && ScoutResult(page).value.coverUrl == page.value.covers[0].attrs["src"]
  {
  }

  /** `links.reverse()`: reverses the array in place. */
  method Reverse<T>(a: array<T>)
    modifies a
    ensures a[..] == Reversed(old(a[..]))
  {
    var lo, hi := 0, a.Length;
    while lo + 1 < hi
      invariant 0 <= lo <= hi <= a.Length && lo + hi == a.Length
      invariant forall k :: 0 <= k < lo ==> a[k] == old(a[a.Length - 1 - k]) && a[a.Length - 1 - k] == old(a[k])
      invariant forall k :: lo <= k < hi ==> a[k] == old(a[k])
    {
      a[lo], a[hi - 1] := a[hi - 1], a[lo];
      lo, hi := lo + 1, hi - 1;
    }
    forall k | 0 <= k < a.Length
      ensures a[k] == Reversed(old(a[..]))[k]
    {
      ReversedIndex(old(a[..]), k);
    }
  }

  /** `scout_title` after the page is fetched and matched: collect the links, reverse them, take the first title and cover. */
  method ScoutTitle(page: Option<TitlePage>) returns (r: Result<Scouted, ScoutFailure>)
    ensures r == ScoutResult(page)
  {
    if page.None? {
      return Err(PageUnreachable);
    }
    var anchors := page.value.anchors;
    var links := new Link[|anchors|];
    for i := 0 to |anchors|
      invariant AllHaveAttr(anchors[..i], "href")
      invariant links[..i] == AnchorLinks(anchors[..i])
    {
      if "href" !in anchors[i].attrs {
        assert !AllHaveAttr(anchors, "href");
        return Err(MissingHref);
      }
      links[i] := (anchors[i].text, anchors[i].attrs["href"]);
      assert anchors[..i + 1] == anchors[..i] + [anchors[i]];
    }
    assert anchors[..|anchors|] == anchors && links[..] == links[..|anchors|];
    Reverse(links);
    if page.value.headings == [] {
      return Err(MissingTitle);
    }
    var title := page.value.headings[0].text;
    if page.value.covers == [] {
      return Err(MissingCover);
    }
    if "src" !in page.value.covers[0].attrs {
      return Err(MissingCoverSrc);
    }
    var coverUrl := page.value.covers[0].attrs["src"];
    r := Ok(Scouted(title, coverUrl, links[..]));
  }

  // ---------------------------------------------------------------------------
  // download_chapter

  /** One spawned download task: the image url and the file it is written to. */
  datatype Job = Job(src: string, dest: string)

  /** How a spawned task ends: it finished (its own result, `saved`, is discarded) or joining it failed. */
  datatype TaskOutcome = Finished(saved: bool) | JoinFailed

  datatype DownloadStatus =
    | Completed                       // Ok(())
    | JoinError                       // Err from `thread.await?`
    | DownloadPanicked(unreachable: bool)   // the page GET failed (true) or an image had no `src` (false)

  /** `format!("{}/{}.png", chapter_dir, i)`. */
  function ImagePath(dir: string, i: nat): string {
    dir + "/" + NatToString(i) + ".png"
  }

  /** One job per image, in document order. */
  function Jobs(dir: string, images: seq<Element>): (jobs: seq<Job>)
    requires AllHaveAttr(images, "src")
    ensures |jobs| == |images|
  {
    seq(|images|, i requires 0 <= i < |images| => Job(images[i].attrs["src"], ImagePath(dir, i)))
  }

  /** The position of the first element without attribute `name`, or `|es|` if there is none. */
  function FirstMissing(es: seq<Element>, name: string): (k: nat)
    ensures k <= |es| && AllHaveAttr(es[..k], name)
    ensures k < |es| ==> name !in es[k].attrs
  {
    if es == [] then 0
    else if name !in es[0].attrs then 0
    else
      var k := FirstMissing(es[1..], name);
      assert es[..k + 1] == [es[0]] + es[1..][..k];
      k + 1
  }

  /** Different images are written to different files. */
  lemma ImagePathsDistinct(dir: string, i: nat, j: nat)
    requires i != j
    ensures ImagePath(dir, i) != ImagePath(dir, j)
  {
    var a, b := NatToString(i), NatToString(j);
    if ImagePath(dir, i) == ImagePath(dir, j) {
      var s := ImagePath(dir, i);
      assert |a| == |b|;
      assert a == s[|dir| + 1..|dir| + 1 + |a|];
      assert b == ImagePath(dir, j)[|dir| + 1..|dir| + 1 + |b|];
      NatToStringInjective(i, j);
    }
  }

  /** Job `i` fetches image `i`'s `src` into `{dir}/{i}.png`, and no two jobs share a destination. */
  lemma JobsSpec(dir: string, images: seq<Element>)
    requires AllHaveAttr(images, "src")
    ensures forall i :: 0 <= i < |images| ==> Jobs(dir, images)[i] == Job(images[i].attrs["src"], ImagePath(dir, i))
    ensures forall i, j :: 0 <= i < j < |images| ==> Jobs(dir, images)[i].dest != Jobs(dir, images)[j].dest
  {
    forall i, j | 0 <= i < j < |images|
      ensures Jobs(dir, images)[i].dest != Jobs(dir, images)[j].dest
    {
      ImagePathsDistinct(dir, i, j);
    }
  }

  /**
   * What `download_chapter` does once the page is fetched and matched: the
   * tasks it spawns and how the call ends. `outcomes[i]` is how task `i` ends.
   */
  function DownloadPlan(chapterDir: string, page: Option<seq<Element>>, outcomes: seq<TaskOutcome>): (seq<Job>, DownloadStatus)
    requires page.Some? ==> |outcomes| == |page.value|
  {
    if page.None? then ([], DownloadPanicked(true))
    else
      var images := page.value;
      var k := FirstMissing(images, "src");
      if k < |images| then (Jobs(chapterDir, images[..k]), DownloadPanicked(false))
      else if exists i :: 0 <= i < |images| && outcomes[i] == JoinFailed then (Jobs(chapterDir, images), JoinError)
      else (Jobs(chapterDir, images), Completed)
  }

  /**
   * One task per image in document order, spawned until the first image
   * without `src` (which panics after the earlier tasks were spawned); the
   * call returns an error only when a task fails to join, whatever each
   * task's own download-and-write result was.
   */
  lemma DownloadPlanSpec(chapterDir: string, images: seq<Element>, outcomes: seq<TaskOutcome>)
    requires |outcomes| == |images|
    ensures var (spawned, status) := DownloadPlan(chapterDir, Some(images), outcomes);
      && (status == DownloadPanicked(false) <==> !AllHaveAttr(images, "src"))
      && (AllHaveAttr(images, "src") ==> spawned == Jobs(chapterDir, images))
      && (!AllHaveAttr(images, "src") ==>
            && |spawned| < |images| && !("src" in images[|spawned|].attrs)
            && AllHaveAttr(images[..|spawned|], "src") && spawned == Jobs(chapterDir, images[..|spawned|]))
      && (AllHaveAttr(images, "src") ==>
            (status == Completed <==> forall i :: 0 <= i < |outcomes| ==> outcomes[i].Finished?))
  {
    var k := FirstMissing(images, "src");
    if k == |images| {
      assert images[..k] == images;
    }
  }

  /** The task results are discarded: changing whether tasks saved their image never changes how the call ends. */
  lemma DownloadIgnoresTaskResults(chapterDir: string, images: seq<Element>, outcomes: seq<TaskOutcome>, outcomes': seq<TaskOutcome>)
    requires |outcomes| == |images| == |outcomes'|
    requires forall i :: 0 <= i < |images| ==> (outcomes[i].Finished? <==> outcomes'[i].Finished?)
    ensures DownloadPlan(chapterDir, Some(images), outcomes) == DownloadPlan(chapterDir, Some(images), outcomes')
  {
    assert (exists i :: 0 <= i < |images| && outcomes[i] == JoinFailed)
       <==> (exists i :: 0 <= i < |images| && outcomes'[i] == JoinFailed);
  }

  /**
   * `download_chapter` after the page is fetched and matched: spawn one task
   * per image in a loop, then join them in order, returning at the first
   * join failure.
   */
  method DownloadChapter(chapterDir: string, page: Option<seq<Element>>, outcomes: seq<TaskOutcome>)
    returns (spawned: seq<Job>, status: DownloadStatus)
    requires page.Some? ==> |outcomes| == |page.value|
    ensures (spawned, status) == DownloadPlan(chapterDir, page, outcomes)
  {
    spawned := [];
    if page.None? {
      return [], DownloadPanicked(true);
    }
    var images := page.value;
    ghost var k := FirstMissing(images, "src");
    for i := 0 to |images|
      invariant i <= k
      invariant spawned == Jobs(chapterDir, images[..i])
    {
      if "src" !in images[i].attrs {
        return spawned, DownloadPanicked(false);
      }
      spawned := spawned + [Job(images[i].attrs["src"], ImagePath(chapterDir, i))];
    }
    assert images[..|images|] == images;
    for i := 0 to |spawned|
      invariant forall j :: 0 <= j < i ==> outcomes[j] != JoinFailed
    {
      if outcomes[i] == JoinFailed {
        return spawned, JoinError;
      }
    }
    status := Completed;
  }
}
