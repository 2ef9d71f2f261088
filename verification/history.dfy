/** The reading history kept in the browser: a list of entries, newest
    first, at most one per comic slug, at most fifty long. A visit to a
    comic's detail page or to one of its chapters writes that comic's entry,
    merging the new values with those of the entry it replaces. The clock
    reading `now` is a parameter. */
module History {

  import opened Base
  import opened Content

  datatype Entry = Entry(
    slug: string,
    title: string,
    image: string,
    lastChapterSlug: string,  // "" when no chapter has been read
    lastChapterTitle: string,
    timestamp: int)

  const Capacity: nat := 50
  const UnknownTitle := "Unknown Title"
  const DefaultImage := "assets/icon.png"
  const UnknownChapter := "Chapter ?"

  /** `history.find(h => h.slug === slug)`: the first entry of the comic. */
  function Find(h: seq<Entry>, slug: string): (r: Option<Entry>)
    ensures r.None? <==> forall i :: 0 <= i < |h| ==> h[i].slug != slug
    ensures r.Some? ==> r.value in h && r.value.slug == slug
    ensures |h| > 0 && h[0].slug == slug ==> r == Some(h[0])
    // the entry found is the comic's earliest one
    ensures r.Some? ==>
      exists i :: 0 <= i < |h| && h[i] == r.value &&
        (forall k :: 0 <= k < i ==> h[k].slug != slug)
    decreases |h|
  {
    if |h| == 0 then None
    else if h[0].slug == slug then Some(h[0])
    else
      var r := Find(h[1..], slug);
      assert forall i :: 1 <= i < |h| ==> h[i] == h[1..][i - 1];
      assert r.Some? ==>
        exists i :: 0 <= i < |h| && h[i] == r.value &&
          (forall k :: 0 <= k < i ==> h[k].slug != slug) by {
        if r.Some? {
          var j :| 0 <= j < |h[1..]| && h[1..][j] == r.value &&
            forall k :: 0 <= k < j ==> h[1..][k].slug != slug;
          assert h[j + 1] == r.value;
          assert forall k :: 0 <= k < j + 1 ==> h[k].slug != slug by {
            forall k | 0 <= k < j + 1 ensures h[k].slug != slug {
              if k > 0 { assert h[k] == h[1..][k - 1]; }
            }
          }
        }
      }
      r
  }

  /** `history.filter(h => h.slug !== slug)`. */
  function Without(h: seq<Entry>, slug: string): (r: seq<Entry>)
    ensures forall e :: e in r <==> e in h && e.slug != slug
    ensures |r| <= |h|
    decreases |h|
  {
    if |h| == 0 then []
    else
      var rest := Without(h[1..], slug);
      assert forall e :: e in h <==> e == h[0] || e in h[1..];
      if h[0].slug == slug then rest else [h[0]] + rest
  }

  /** `a` is `b` with some elements left out, the rest in the same order. */
  ghost predicate Subsequence<T>(a: seq<T>, b: seq<T>)
    decreases |b|
  {
    || |a| == 0
    || (&& |b| > 0
        && ((a[0] == b[0] && Subsequence(a[1..], b[1..])) || Subsequence(a, b[1..])))
  }

  /** Filtering keeps the surviving entries in their previous order. */
  lemma {:induction false} WithoutKeepsOrder(h: seq<Entry>, slug: string)
    ensures Subsequence(Without(h, slug), h)
    decreases |h|
  {
    if |h| > 0 {
      WithoutKeepsOrder(h[1..], slug);
      var rest := Without(h[1..], slug);
      if h[0].slug != slug {
        assert ([h[0]] + rest)[1..] == rest;
      }
    }
  }

  /** No two entries share a slug. */
  predicate Unique(h: seq<Entry>) {
    forall i, j :: 0 <= i < j < |h| ==> h[i].slug != h[j].slug
  }

  /** Newest first: timestamps never increase along the list. */
  predicate NewestFirst(h: seq<Entry>) {
    forall i, j :: 0 <= i < j < |h| ==> h[i].timestamp >= h[j].timestamp
  }

  /** The entry written for a visit. Each field is the new value when it is
      non-empty, else the replaced entry's value when that is non-empty, else
      the field's default; the last chapter read has no default. */
  function Merge(existing: Option<Entry>, slug: string, title: string, image: string,
                 chSlug: string, chTitle: string, now: int): (e: Entry)
    ensures e.slug == slug && e.timestamp == now
    ensures Truthy(e.title) && Truthy(e.image) && Truthy(e.lastChapterTitle)
    ensures Truthy(title) ==> e.title == title
    ensures Truthy(image) ==> e.image == image
    ensures Truthy(chSlug) ==> e.lastChapterSlug == chSlug
    ensures Truthy(chTitle) ==> e.lastChapterTitle == chTitle
    ensures existing.Some? && !Truthy(title) && Truthy(existing.value.title) ==> e.title == existing.value.title
    ensures existing.Some? && !Truthy(image) && Truthy(existing.value.image) ==> e.image == existing.value.image
    ensures existing.Some? && !Truthy(chSlug) ==> e.lastChapterSlug == existing.value.lastChapterSlug
    ensures existing.Some? && !Truthy(chTitle) && Truthy(existing.value.lastChapterTitle) ==>
      e.lastChapterTitle == existing.value.lastChapterTitle
    // the default applies when neither the visit nor the replaced entry has a value
    ensures !Truthy(title) && (existing.None? || !Truthy(existing.value.title)) ==> e.title == UnknownTitle
    ensures !Truthy(image) && (existing.None? || !Truthy(existing.value.image)) ==> e.image == DefaultImage
    ensures existing.None? && !Truthy(chSlug) ==> e.lastChapterSlug == ""
    ensures !Truthy(chTitle) && (existing.None? || !Truthy(existing.value.lastChapterTitle)) ==>
      e.lastChapterTitle == UnknownChapter
  {
    var prior := match existing case Some(x) => x case None => Entry("", "", "", "", "", 0);
    Entry(
      slug,
      Or(title, Or(prior.title, UnknownTitle)),
      Or(image, Or(prior.image, DefaultImage)),
      Or(chSlug, prior.lastChapterSlug),
      Or(chTitle, Or(prior.lastChapterTitle, UnknownChapter)),
      now)
  }

  /** `saveHistory(slug, title, image, chSlug, chTitle)`: the comic's merged
      entry goes to the front, every other entry of that comic is dropped,
      and when the list then exceeds the capacity its last entry is evicted. */
  function Save(h: seq<Entry>, slug: string, title: string, image: string,
                chSlug: string, chTitle: string, now: int): (r: seq<Entry>)
    ensures |r| > 0 && r[0] == Merge(Find(h, slug), slug, title, image, chSlug, chTitle, now)
    // the comic occurs exactly once, at the head
    ensures forall i :: 1 <= i < |r| ==> r[i].slug != slug
    ensures |Without(h, slug)| < Capacity ==> |r| == |Without(h, slug)| + 1
    ensures |Without(h, slug)| >= Capacity ==> |r| == |Without(h, slug)|
    // the other entries follow in their previous order; only the last can be cut
    ensures r[1..] == Without(h, slug)[..|r| - 1]
    ensures |h| <= Capacity ==> |r| <= Capacity
  {
    var e := Merge(Find(h, slug), slug, title, image, chSlug, chTitle, now);
    var rest := Without(h, slug);
    var r := [e] + rest;
    assert r[1..] == rest;
    assert forall i :: 1 <= i < |r| ==> r[i] in rest;
    if |r| > Capacity then r[..|r| - 1] else r
  }

  /** Saving keeps the list free of duplicate slugs. */
  lemma SaveUnique(h: seq<Entry>, slug: string, title: string, image: string,
                   chSlug: string, chTitle: string, now: int)
    requires Unique(h)
    ensures Unique(Save(h, slug, title, image, chSlug, chTitle, now))
  {
    var r := Save(h, slug, title, image, chSlug, chTitle, now);
    var w := Without(h, slug);
    WithoutUnique(h, slug);
    assert forall i :: 1 <= i < |r| ==> r[i] == w[i - 1];
  }

  lemma {:induction false} WithoutUnique(h: seq<Entry>, slug: string)
    requires Unique(h)
    ensures Unique(Without(h, slug))
    decreases |h|
  {
    if |h| > 0 {
      WithoutUnique(h[1..], slug);
      if h[0].slug != slug {
        HeadUnique(h);
        ConsUnique(h[0], Without(h[1..], slug));
      }
    }
  }

  lemma HeadUnique(h: seq<Entry>)
    requires |h| > 0 && Unique(h)
    ensures forall e :: e in h[1..] ==> e.slug != h[0].slug
  {
    forall e | e in h[1..]
      ensures e.slug != h[0].slug
    {
      var k :| 0 <= k < |h[1..]| && h[1..][k] == e;
      assert h[k + 1] == e;
    }
  }

  lemma ConsUnique(x: Entry, rest: seq<Entry>)
    requires Unique(rest) && forall e :: e in rest ==> e.slug != x.slug
    ensures Unique([x] + rest)
  {
    var w := [x] + rest;
    forall i, j | 0 <= i < j < |w|
      ensures w[i].slug != w[j].slug
    {
      assert w[j] == rest[j - 1] && w[j] in rest;
      if i > 0 {
        assert w[i] == rest[i - 1];
      }
    }
  }

  /** When every stored timestamp is at most `now`, saving keeps the list
      newest first, so the entry evicted on overflow is an oldest one: its
      timestamp is at most that of every entry kept. */
  lemma SaveNewestFirst(h: seq<Entry>, slug: string, title: string, image: string,
                        chSlug: string, chTitle: string, now: int)
    requires NewestFirst(h)
    requires forall i :: 0 <= i < |h| ==> h[i].timestamp <= now
    ensures var r := Save(h, slug, title, image, chSlug, chTitle, now);
      && NewestFirst(r)
      && (|Without(h, slug)| >= Capacity ==>
            var w := Without(h, slug);
            forall i :: 0 <= i < |r| ==> w[|w| - 1].timestamp <= r[i].timestamp)
  {
    var r := Save(h, slug, title, image, chSlug, chTitle, now);
    var w := Without(h, slug);
    WithoutNewestFirst(h, slug);
    assert forall i :: 1 <= i < |r| ==> r[i] == w[i - 1];
    assert forall e :: e in w ==> e in h;
    assert forall i :: 0 <= i < |w| ==> w[i].timestamp <= now by {
      forall i | 0 <= i < |w| ensures w[i].timestamp <= now {
        assert w[i] in h;
      }
    }
  }

  lemma {:induction false} WithoutNewestFirst(h: seq<Entry>, slug: string)
    requires NewestFirst(h)
    ensures NewestFirst(Without(h, slug))
    decreases |h|
  {
    if |h| > 0 {
      WithoutNewestFirst(h[1..], slug);
      if h[0].slug != slug {
        HeadNewest(h);
        ConsNewestFirst(h[0], Without(h[1..], slug));
      }
    }
  }

  lemma HeadNewest(h: seq<Entry>)
    requires |h| > 0 && NewestFirst(h)
    ensures forall e :: e in h[1..] ==> e.timestamp <= h[0].timestamp
  {
    forall e | e in h[1..]
      ensures e.timestamp <= h[0].timestamp
    {
      var k :| 0 <= k < |h[1..]| && h[1..][k] == e;
      assert h[k + 1] == e;
    }
  }

  lemma ConsNewestFirst(x: Entry, rest: seq<Entry>)
    requires NewestFirst(rest) && forall e :: e in rest ==> e.timestamp <= x.timestamp
    ensures NewestFirst([x] + rest)
  {
    var w := [x] + rest;
    forall i, j | 0 <= i < j < |w|
      ensures w[i].timestamp >= w[j].timestamp
    {
      assert w[j] == rest[j - 1] && w[j] in rest;
      if i > 0 {
        assert w[i] == rest[i - 1];
      }
    }
  }

  /** Two saves for the same comic: the later write's non-empty fields win,
      and each empty one falls back to what the earlier write stored. */
  lemma SaveTwice(h: seq<Entry>, slug: string,
                  title1: string, image1: string, chSlug1: string, chTitle1: string, now1: int,
                  title2: string, image2: string, chSlug2: string, chTitle2: string, now2: int)
    ensures var h1 := Save(h, slug, title1, image1, chSlug1, chTitle1, now1);
      var h2 := Save(h1, slug, title2, image2, chSlug2, chTitle2, now2);
      && h2[0].slug == slug && h2[0].timestamp == now2
      && (forall i :: 1 <= i < |h2| ==> h2[i].slug != slug)
      && h2[0].title == Or(title2, h1[0].title)
      && h2[0].image == Or(image2, h1[0].image)
      && h2[0].lastChapterSlug == Or(chSlug2, h1[0].lastChapterSlug)
      && h2[0].lastChapterTitle == Or(chTitle2, h1[0].lastChapterTitle)
  {
    var h1 := Save(h, slug, title1, image1, chSlug1, chTitle1, now1);
    assert Find(h1, slug) == Some(h1[0]);
  }

  /** The chapter the detail page's primary button opens: the last chapter
      read according to the history, else the last element of the chapter
      list (the earliest chapter, lists being newest first), else none. */
  function ResumeTarget(h: seq<Entry>, slug: string, chapters: seq<Chapter>): (r: Option<string>)
    ensures r.Some? ==> Truthy(r.value)
    ensures Find(h, slug).Some? && Truthy(Find(h, slug).value.lastChapterSlug) ==>
      r == Some(Find(h, slug).value.lastChapterSlug)
    ensures !(Find(h, slug).Some? && Truthy(Find(h, slug).value.lastChapterSlug)) ==>
      r == (if |chapters| > 0 && Truthy(chapters[|chapters| - 1].slug)
            then Some(chapters[|chapters| - 1].slug) else None)
  {
    var lastCh := match Find(h, slug) case Some(e) => e.lastChapterSlug case None => "";
    var firstCh := if |chapters| > 0 then chapters[|chapters| - 1].slug else "";
    if Truthy(lastCh) then Some(lastCh)
    else if Truthy(firstCh) then Some(firstCh)
    else None
  }

  /** After a chapter is recorded, the comic's page resumes at that chapter. */
  lemma ResumeAfterRead(h: seq<Entry>, slug: string, title: string, image: string,
                        chSlug: string, chTitle: string, now: int, chapters: seq<Chapter>)
    requires Truthy(chSlug)
    ensures ResumeTarget(Save(h, slug, title, image, chSlug, chTitle, now), slug, chapters) == Some(chSlug)
  {
  }

  /** A visit that records no chapter (the detail page) keeps the resume point. */
  lemma DetailVisitKeepsResume(h: seq<Entry>, slug: string, title: string, image: string,
                               now: int, chapters: seq<Chapter>)
    ensures ResumeTarget(Save(h, slug, title, image, "", "", now), slug, chapters) == ResumeTarget(h, slug, chapters)
  {
  }
}
