/** The client's URL router: which view a path shows on first load and on
    back/forward navigation, which path each view pushes, and how the
    identifier in `/series/<id>` and `/chapter/<id>` becomes a slug. */
module Router {

  import opened Base
  import opened Text
  import Mapping

  datatype View =
    | Home
    | Ongoing(page: nat)
    | Completed(page: nat)
    | SeriesDetail(token: string)  // showDetail(token, false)
    | ChapterReader(token: string) // readChapter(token, null, false)
    | HistoryList
    | BookmarkList
    | Stay                         // the static not-found page: nothing is rendered

  const SeriesPrefix := "/series/"
  const ChapterPrefix := "/chapter/"

  /** Length of a version-4 identifier in its textual form. */
  const TokenLength: nat := 36

  /** The text up to the first '/'. */
  function UpToSlash(s: string): (r: string)
    ensures '/' !in r && StartsWith(s, r)
    ensures |r| == |s| || s[|r|] == '/'
    decreases |s|
  {
    if |s| == 0 || s[0] == '/' then ""
    else
      var r := [s[0]] + UpToSlash(s[1..]);
      assert r[1..] == UpToSlash(s[1..]);
      r
  }

  /** `s.split('/')[n]`, with `""` standing for `undefined` when there are
      not that many fields. */
  function Field(s: string, n: nat): (r: string)
    ensures '/' !in r
    // a text without '/' splits into itself alone
    ensures '/' !in s ==> r == (if n == 0 then s else "")
    decreases |s|
  {
    var first := UpToSlash(s);
    if n == 0 then first
    else if |first| == |s| then ""
    else Field(s[|first| + 1..], n - 1)
  }

  /** The segment after a prefix that ends in '/': the third field. */
  lemma {:induction false} FieldAfterPrefix(prefix: string, rest: string)
    requires |prefix| >= 2 && prefix[0] == '/' && prefix[|prefix| - 1] == '/'
    requires '/' !in prefix[1..|prefix| - 1]
    ensures Field(prefix + rest, 2) == UpToSlash(rest)
  {
    var s := prefix + rest;
    assert UpToSlash(s) == "";
    var s1 := s[1..];
    var name := prefix[1..|prefix| - 1];
    assert s1 == name + ("/" + rest);
    UpToSlashPrefix(name, "/" + rest);
    assert s1[|name| + 1..] == rest;
    assert Field(s, 2) == Field(s1, 1);
    assert Field(s1, 1) == Field(rest, 0);
  }

  lemma {:induction false} UpToSlashPrefix(a: string, b: string)
    requires '/' !in a && |b| > 0 && b[0] == '/'
    ensures UpToSlash(a + b) == a
    decreases |a|
  {
    if |a| > 0 {
      assert (a + b)[1..] == a[1..] + b;
      UpToSlashPrefix(a[1..], b);
      assert a == [a[0]] + a[1..];
    } else {
      assert a + b == b;
    }
  }

  /** `handleInitialLoad`: the view derived from `location.pathname`. */
  function Route(path: string): (v: View)
    ensures v == Stay <==> path == "/404.html"
    ensures v.SeriesDetail? ==> StartsWith(path, SeriesPrefix) && Truthy(v.token) && '/' !in v.token
    ensures v.ChapterReader? ==> StartsWith(path, ChapterPrefix) && Truthy(v.token) && '/' !in v.token
    ensures v.Ongoing? ==> path == "/ongoing" && v.page == 1
    ensures v.Completed? ==> path == "/completed" && v.page == 1
    ensures v == HistoryList ==> path == "/history"
    ensures v == BookmarkList ==> path == "/bookmarks"
    ensures path == "/ongoing" ==> v == Ongoing(1)
    ensures path == "/completed" ==> v == Completed(1)
    ensures path == "/history" ==> v == HistoryList
    ensures path == "/bookmarks" ==> v == BookmarkList
    // every other path shows the home page
    ensures (&& path !in {"/404.html", "/ongoing", "/completed", "/history", "/bookmarks"}
             && !StartsWith(path, SeriesPrefix) && !StartsWith(path, ChapterPrefix)) ==> v == Home
  {
    if path == "/404.html" then Stay
    else if StartsWith(path, SeriesPrefix) then
      var id := Field(path, 2);
      FieldAfterPrefix(SeriesPrefix, path[|SeriesPrefix|..]);
      assert path == SeriesPrefix + path[|SeriesPrefix|..];
      if Truthy(id) then SeriesDetail(id) else Home
    else if StartsWith(path, ChapterPrefix) then
      var id := Field(path, 2);
      FieldAfterPrefix(ChapterPrefix, path[|ChapterPrefix|..]);
      assert path == ChapterPrefix + path[|ChapterPrefix|..];
      if Truthy(id) then ChapterReader(id) else Home
    else if path == "/ongoing" then Ongoing(1)
    else if path == "/completed" then Completed(1)
    else if path == "/history" then HistoryList
    else if path == "/bookmarks" then BookmarkList
    else Home
  }

  /** A series or chapter path routes to the segment after its prefix, up to
      the next '/', whatever follows; with an empty segment it routes home. */
  lemma RouteSegment(id: string, rest: string)
    requires '/' !in id
    requires rest == [] || rest[0] == '/'
    ensures Route(SeriesPrefix + id + rest) == (if Truthy(id) then SeriesDetail(id) else Home)
    ensures Route(ChapterPrefix + id + rest) == (if Truthy(id) then ChapterReader(id) else Home)
  {
    SegmentOf(SeriesPrefix, id, rest);
    SegmentOf(ChapterPrefix, id, rest);
    assert StartsWith(SeriesPrefix + id + rest, SeriesPrefix);
    assert StartsWith(ChapterPrefix + id + rest, ChapterPrefix);
    assert !StartsWith(ChapterPrefix + id + rest, SeriesPrefix) by {
      assert (ChapterPrefix + id + rest)[1] != SeriesPrefix[1];
    }
    assert SeriesPrefix + id + rest != "/404.html" by {
      assert (SeriesPrefix + id + rest)[1] != "/404.html"[1];
    }
    assert ChapterPrefix + id + rest != "/404.html" by {
      assert (ChapterPrefix + id + rest)[1] != "/404.html"[1];
    }
  }

  lemma SegmentOf(prefix: string, id: string, rest: string)
    requires |prefix| >= 2 && prefix[0] == '/' && prefix[|prefix| - 1] == '/'
    requires '/' !in prefix[1..|prefix| - 1]
    requires '/' !in id && (rest == [] || rest[0] == '/')
    ensures Field(prefix + id + rest, 2) == id
  {
    assert prefix + id + rest == prefix + (id + rest);
    FieldAfterPrefix(prefix, id + rest);
    if rest == [] {
      assert id + rest == id;
      UpToSlashWhole(id);
    } else {
      UpToSlashPrefix(id, rest);
    }
  }

  lemma {:induction false} UpToSlashWhole(a: string)
    requires '/' !in a
    ensures UpToSlash(a) == a
    decreases |a|
  {
    if |a| > 0 {
      UpToSlashWhole(a[1..]);
      assert a == [a[0]] + a[1..];
    }
  }

  /** The path each view pushes when it is opened by a click. Listings
      push their path without the page number. */
  function PathOf(v: View): (p: string)
    ensures |p| > 0 && p[0] == '/'
    // the identifier of a detail or reader view is the third field of its path
    ensures (v.SeriesDetail? || v.ChapterReader?) && '/' !in v.token ==> Field(p, 2) == v.token
  {
    match v
    case Home => "/"
    case Ongoing(_) => "/ongoing"
    case Completed(_) => "/completed"
    case SeriesDetail(token) =>
      TokenIsThirdField(SeriesPrefix, token);
      SeriesPrefix + token
    case ChapterReader(token) =>
      TokenIsThirdField(ChapterPrefix, token);
      ChapterPrefix + token
    case HistoryList => "/history"
    case BookmarkList => "/bookmarks"
    case Stay => "/404.html"
  }

  lemma TokenIsThirdField(prefix: string, token: string)
    requires |prefix| >= 2 && prefix[0] == '/' && prefix[|prefix| - 1] == '/'
    requires '/' !in prefix[1..|prefix| - 1]
    ensures '/' !in token ==> Field(prefix + token, 2) == token
  {
    if '/' !in token {
      SegmentOf(prefix, token, "");
      assert prefix + token + "" == prefix + token;
    }
  }

  /** A view whose identifier can be carried by one path segment. */
  predicate Addressable(v: View) {
    (v.SeriesDetail? || v.ChapterReader?) ==> Truthy(v.token) && '/' !in v.token
  }

  /** Reloading or going back to a pushed path shows the view that pushed
      it, except that a listing restarts at its first page. */
  lemma RouteOfPushedPath(v: View)
    requires Addressable(v)
    ensures Route(PathOf(v)) == match v
      case Ongoing(_) => Ongoing(1)
      case Completed(_) => Completed(1)
      case _ => v
  {
    match v
    case SeriesDetail(token) =>
      RouteSegment(token, "");
      assert SeriesPrefix + token + "" == PathOf(v);
    case ChapterReader(token) =>
      RouteSegment(token, "");
      assert ChapterPrefix + token + "" == PathOf(v);
    case Home =>
      assert !StartsWith("/", SeriesPrefix) && !StartsWith("/", ChapterPrefix);
    case Ongoing(_) =>
      assert "/ongoing"[..8][1] != SeriesPrefix[1];
    case Completed(_) =>
      assert "/completed"[..8][1] != SeriesPrefix[1];
      assert "/completed"[..9][2] != ChapterPrefix[2];
    case HistoryList =>
      assert "/history"[..8][1] != SeriesPrefix[1];
    case BookmarkList =>
      assert "/bookmarks"[..8][1] != SeriesPrefix[1];
      assert "/bookmarks"[..9][1] != ChapterPrefix[1];
    case Stay =>
  }

  // ----------------------------------------------------- identifier tokens

  /** What the client makes of the reply to `GET /api/get-slug/:uuid`: the
      record on success, nothing on 404, 500 or a network failure. */
  function Lookup(reply: Mapping.ResolveResponse): (r: Option<Mapping.Record>)
    ensures r.Some? <==> reply.Found?
    ensures reply.Found? ==> r == Some(reply.record)
  {
    match reply
    case Found(record) => Some(record)
    case _ => None
  }

  /** The slug `showDetail` and `readChapter` work with: an argument of
      identifier length is looked up and replaced by the mapped slug when
      the lookup succeeds; any other argument, or a failed lookup, is used as
      a literal slug. */
  function ResolveToken(idOrSlug: string, lookup: Option<Mapping.Record>): (slug: string)
    ensures |idOrSlug| != TokenLength ==> slug == idOrSlug
    ensures lookup.None? ==> slug == idOrSlug
    ensures |idOrSlug| == TokenLength && lookup.Some? ==> slug == lookup.value.slug
  {
    if |idOrSlug| == TokenLength && lookup.Some? then lookup.value.slug else idOrSlug
  }

  /** A deep link made from an identifier the service issued, opened later
      (reload, shared link, back button), routes to the identifier and
      resolves to the slug it was issued for. */
  lemma DeepLinkRoundTrip(store: Mapping.Store, slug: string, kind: string, candidate: string, later: seq<Mapping.Request>)
    requires Mapping.Wf(store)
    requires Mapping.GetOrCreateId(store, true, Some(slug), Some(kind), candidate).response.Issued?
    requires var u := Mapping.GetOrCreateId(store, true, Some(slug), Some(kind), candidate).response.uuid;
      |u| == TokenLength && '/' !in u
    ensures var r := Mapping.GetOrCreateId(store, true, Some(slug), Some(kind), candidate);
      var u := r.response.uuid;
      var s := Mapping.Serve(r.store, later);
      && Route(PathOf(SeriesDetail(u))) == SeriesDetail(u)
      && Route(PathOf(ChapterReader(u))) == ChapterReader(u)
      && ResolveToken(u, Lookup(Mapping.Resolve(s, true, u))) == slug
  {
    var r := Mapping.GetOrCreateId(store, true, Some(slug), Some(kind), candidate);
    var u := r.response.uuid;
    RouteOfPushedPath(SeriesDetail(u));
    RouteOfPushedPath(ChapterReader(u));
    Mapping.IssuedStaysResolvable(r.store, Mapping.Record(u, slug, kind), later);
  }

  /** When the client falls back to a raw slug, that slug is used as it is:
      always when its length is not that of an identifier, and otherwise as
      long as it is not an identifier the service knows. */
  lemma RawSlugFallback(store: Mapping.Store, slug: string, connected: bool)
    requires |slug| != TokenLength || slug !in Mapping.Uuids(store)
    ensures ResolveToken(slug, Lookup(Mapping.Resolve(store, connected, slug))) == slug
  {
  }
}
