/** The client's navigation state and the transitions that change it: the
    detail page, the chapter reader with its navigation lock, and the
    background refill of the chapter list when a chapter is opened without
    its comic's page. The answers of the network (mapping lookups, the
    upstream API) and the clock are parameters; the HTML rendered is reduced
    to the `Screen` it shows. */
module Session {

  import opened Base
  import opened Content
  import Text
  import History
  import Labels
  import Router
  import Mapping

  /** `currentComicContext`; `null` fields are `""`. */
  datatype ComicContext = ComicContext(slug: string, title: string, image: string)

  const NoContext := ComicContext("", "", "")

  datatype Screen =
    | Blank
    | Loading
    | NotFound
    | DetailPage(slug: string, resume: Option<string>)
    | ReaderPage(chapterSlug: string, header: string, back: Option<string>)  // back: the comic, or home

  datatype State = State(
    navigating: bool,               // isNavigating
    chapterList: seq<Chapter>,      // currentChapterList
    context: ComicContext,          // currentComicContext
    history: seq<History.Entry>,    // the stored reading history
    screen: Screen)

  /** The state right after a page load, with the stored history. */
  function Initial(history: seq<History.Entry>): State {
    State(false, [], NoContext, history, Blank)
  }

  // ------------------------------------------------------------ detail page

  /** `showDetail(idOrSlug)` once its fetches have answered: `lookup` is the
      mapping service's answer (consulted only for an identifier-length
      argument) and `detail` the detail endpoint's, `None` when it failed.
      The lock is neither checked nor taken. */
  function ShowDetail(s: State, idOrSlug: string, lookup: Option<Mapping.Record>,
                      detail: Option<ComicDetail>, now: int): (r: State)
    ensures r.navigating == s.navigating
    ensures detail.None? ==> r == s.(screen := NotFound)
    ensures detail.Some? ==>
      var slug := Router.ResolveToken(idOrSlug, lookup);
      && r.chapterList == detail.value.chapters
      && r.context == ComicContext(slug, detail.value.title, detail.value.image)
      && |r.history| > 0 && r.history[0].slug == slug
      // the visit is recorded by saveHistory, with no chapter
      && r.history == History.Save(s.history, slug, detail.value.title, detail.value.image, "", "", now)
      // the primary button resumes where the history, as now stored, says
      && r.screen == DetailPage(slug, History.ResumeTarget(r.history, slug, detail.value.chapters))
  {
    var slug := Router.ResolveToken(idOrSlug, lookup);
    match detail
    case None => s.(screen := NotFound)
    case Some(d) =>
      var resume := History.ResumeTarget(s.history, slug, d.chapters);
      History.DetailVisitKeepsResume(s.history, slug, d.title, d.image, now, d.chapters);
      s.(chapterList := d.chapters,
         context := ComicContext(slug, d.title, d.image),
         history := History.Save(s.history, slug, d.title, d.image, "", "", now),
         screen := DetailPage(slug, resume))
  }

  // ----------------------------------------------------------- chapter read

  /** Arguments of `readChapter(chIdOrSlug, comicSlug)`; a `null` comic is `""`. */
  datatype ReadRequest = ReadRequest(idOrSlug: string, comicSlug: string)

  /** How the body of `readChapter` ended. */
  datatype ReadOutcome =
    | Threw  // an exception escaped before any state was written
    | Fetched(lookup: Option<Mapping.Record>, data: Option<ChapterData>)

  /** The guard and `lockNav()` at the top of `readChapter`: while a read is
      in flight nothing happens; otherwise the lock is taken. */
  function BeginRead(s: State): (r: State)
    ensures s.navigating ==> r == s
    ensures !s.navigating ==> r.navigating && r.history == s.history && r.chapterList == s.chapterList
  {
    if s.navigating then s else s.(navigating := true, screen := Loading)
  }

  /** `safeReadChapter`: its own test of the lock repeats the one inside
      `readChapter`, so it behaves exactly as a direct call. */
  function SafeRead(s: State): (r: State)
    ensures r == BeginRead(s)
  {
    if s.navigating then s else BeginRead(s)
  }

  /** The comic a chapter belongs to: the caller's, else the payload's
      parent, comic or relation slug, in that order; `""` when none is given. */
  function ComicOf(comicSlug: string, d: ChapterData): (r: string)
    ensures Truthy(comicSlug) ==> r == comicSlug
    ensures !Truthy(comicSlug) && Truthy(d.parentSlug) ==> r == d.parentSlug
    ensures !Truthy(comicSlug) && !Truthy(d.parentSlug) && Truthy(d.comicSlug) ==> r == d.comicSlug
    ensures !Truthy(comicSlug) && !Truthy(d.parentSlug) && !Truthy(d.comicSlug) ==> r == d.relationSlug
  {
    Or(comicSlug, Or(d.parentSlug, Or(d.comicSlug, d.relationSlug)))
  }

  /** The reader's effects once the chapter has loaded, given the comic it
      belongs to and the comic context taken to describe that comic. */
  function ShowChapter(s: State, chSlug: string, comic: string, d: ChapterData,
                       ctx: ComicContext, now: int): (r: State)
    ensures !r.navigating
    ensures r.chapterList == s.chapterList && r.context == s.context
    ensures r.screen.ReaderPage? && r.screen.chapterSlug == chSlug
    ensures r.screen.back == (if Truthy(comic) then Some(comic) else None)
    ensures r.screen.header == Or(ctx.title, Or(d.comicTitle, Or(d.parentTitle, "Komik"))) + " - "
                               + Labels.NormalizeChapterLabel(Or(d.title, chSlug))
    ensures !Truthy(comic) ==> r.history == s.history
    ensures Truthy(comic) ==>
      r.history == History.Save(s.history, comic, ctx.title, ctx.image,
                                chSlug, Labels.NormalizeChapterLabel(Or(d.title, chSlug)), now)
    ensures Truthy(comic) ==>
      && |r.history| > 0
      && r.history[0] == History.Merge(History.Find(s.history, comic), comic, ctx.title, ctx.image,
                                       chSlug, Labels.NormalizeChapterLabel(Or(d.title, chSlug)), now)
  {
    var comicTitle := Or(ctx.title, Or(d.comicTitle, Or(d.parentTitle, "Komik")));
    var chapterLabel := Labels.NormalizeChapterLabel(Or(d.title, chSlug));
    var back := if Truthy(comic) then Some(comic) else None;
    var history := if Truthy(comic) then History.Save(s.history, comic, ctx.title, ctx.image, chSlug, chapterLabel, now)
                   else s.history;
    s.(navigating := false, history := history, screen := ReaderPage(chSlug, comicTitle + " - " + chapterLabel, back))
  }

  /** The context `readChapter` should describe the chapter's comic with:
      the cached one when it is that comic's, none otherwise. */
  function ContextFor(ctx: ComicContext, comic: string): (r: ComicContext)
    ensures r == ctx || r == NoContext
    ensures r.slug == "" || r.slug == comic
  {
    if ctx.slug == comic then ctx else NoContext
  }

  /** The rest of `readChapter` AS WRITTEN, ending in the `finally` that
      releases the lock: the cached comic context describes whatever comic
      the chapter belongs to, even when it was cached for another one. */
  function SettleAsWritten(s: State, req: ReadRequest, outcome: ReadOutcome, now: int): (r: State)
    ensures !r.navigating
    ensures r.chapterList == s.chapterList && r.context == s.context
    ensures outcome.Threw? ==> r == s.(navigating := false)
    ensures outcome.Fetched? && outcome.data.None? ==> r == s.(navigating := false, screen := NotFound)
    ensures outcome.Fetched? && outcome.data.Some? ==>
      var chSlug := Router.ResolveToken(req.idOrSlug, outcome.lookup);
      var comic := ComicOf(req.comicSlug, outcome.data.value);
      && r.screen.ReaderPage? && r.screen.chapterSlug == chSlug
      && (!Truthy(comic) ==> r.history == s.history)
      && (Truthy(comic) ==> |r.history| > 0 && r.history[0].slug == comic)
      // the cached title heads the reader and is filed under the chapter's
      // comic, whichever comic it was cached for
      && (Truthy(s.context.title) ==>
            r.screen.header == s.context.title + " - "
                               + Labels.NormalizeChapterLabel(Or(outcome.data.value.title, chSlug)))
      && (Truthy(comic) && Truthy(s.context.title) ==> r.history[0].title == s.context.title)
  {
    match outcome
    case Threw => s.(navigating := false)
    case Fetched(_, None) => s.(navigating := false, screen := NotFound)
    case Fetched(lookup, Some(d)) =>
      var chSlug := Router.ResolveToken(req.idOrSlug, lookup);
      var comic := ComicOf(req.comicSlug, d);
      ShowChapter(s, chSlug, comic, d, s.context, now)
  }

  /** The rest of `readChapter`, with the comic context used only when it is
      the chapter's comic's. The lock is released on every path: the early
      return when the chapter cannot be loaded, and an exception. */
  function Settle(s: State, req: ReadRequest, outcome: ReadOutcome, now: int): (r: State)
    ensures !r.navigating
    // a chapter load never rewrites the cached chapter list or context
    ensures r.chapterList == s.chapterList && r.context == s.context
    ensures outcome.Threw? ==> r == s.(navigating := false)
    ensures outcome.Fetched? && outcome.data.None? ==> r == s.(navigating := false, screen := NotFound)
    ensures outcome.Fetched? && outcome.data.Some? ==>
      var chSlug := Router.ResolveToken(req.idOrSlug, outcome.lookup);
      var comic := ComicOf(req.comicSlug, outcome.data.value);
      && r.screen.ReaderPage? && r.screen.chapterSlug == chSlug
      && (!Truthy(comic) ==> r.history == s.history)
      && (Truthy(comic) ==> |r.history| > 0 && r.history[0].slug == comic)
      && (Truthy(comic) && Truthy(chSlug) ==> r.history[0].lastChapterSlug == chSlug)
      // another comic's cached title and image never leak into the header or this comic's entry
      && (s.context.slug != comic ==>
            r.screen.header == Or(outcome.data.value.comicTitle, Or(outcome.data.value.parentTitle, "Komik"))
                               + " - " + Labels.NormalizeChapterLabel(Or(outcome.data.value.title, chSlug)))
      && (Truthy(comic) && s.context.slug != comic ==>
            && r.history[0].title == Or(TitleOf(History.Find(s.history, comic)), History.UnknownTitle)
            && r.history[0].image == Or(ImageOf(History.Find(s.history, comic)), History.DefaultImage))
  {
    match outcome
    case Threw => s.(navigating := false)
    case Fetched(_, None) => s.(navigating := false, screen := NotFound)
    case Fetched(lookup, Some(d)) =>
      var chSlug := Router.ResolveToken(req.idOrSlug, lookup);
      var comic := ComicOf(req.comicSlug, d);
      ShowChapter(s, chSlug, comic, d, ContextFor(s.context, comic), now)
  }

  function TitleOf(e: Option<History.Entry>): string {
    match e case Some(x) => x.title case None => ""
  }

  function ImageOf(e: Option<History.Entry>): string {
    match e case Some(x) => x.image case None => ""
  }

  /** Whether a loaded chapter starts the background refill of the chapter
      list (`fetchAndPopulateDropdown`): as written, only when no list is
      cached; with the context check, also when the cache is another comic's. */
  predicate WantsRefillAsWritten(s: State, comic: string): (b: bool)
    ensures b ==> Truthy(comic)
    // a cached list is never replaced, whichever comic it was fetched for
    ensures |s.chapterList| > 0 ==> !b
  {
    Truthy(comic) && |s.chapterList| == 0
  }

  predicate WantsRefill(s: State, comic: string): (b: bool)
    ensures WantsRefillAsWritten(s, comic) ==> b
    // a cache of another comic is always replaced, and the comic's own is kept
    ensures Truthy(comic) && s.context.slug != comic ==> b
    ensures b && |s.chapterList| > 0 ==> s.context.slug != comic
  {
    Truthy(comic) && (|s.chapterList| == 0 || s.context.slug != comic)
  }

  /** `fetchAndPopulateDropdown(comicSlug, chSlug)` once the detail endpoint
      has answered: on success the cache becomes the comic's and its history
      entry takes the comic's own title and image. */
  function Refill(s: State, comicSlug: string, chSlug: string, detail: Option<ComicDetail>, now: int): (r: State)
    ensures r.navigating == s.navigating && r.screen == s.screen
    ensures detail.None? ==> r == s
    ensures detail.Some? ==>
      && r.chapterList == detail.value.chapters
      && r.context == ComicContext(comicSlug, detail.value.title, detail.value.image)
      && r.history == History.Save(s.history, comicSlug, detail.value.title, detail.value.image, chSlug, "", now)
      && |r.history| > 0 && r.history[0].slug == comicSlug
      && (Truthy(detail.value.title) ==> r.history[0].title == detail.value.title)
      && (Truthy(detail.value.image) ==> r.history[0].image == detail.value.image)
      && (Truthy(chSlug) ==> r.history[0].lastChapterSlug == chSlug)
  {
    match detail
    case None => s
    case Some(d) =>
      s.(chapterList := d.chapters,
         context := ComicContext(comicSlug, d.title, d.image),
         history := History.Save(s.history, comicSlug, d.title, d.image, chSlug, "", now))
  }

  // --------------------------------------------------- the navigation lock

  /** What the reader can be asked to do while it runs. */
  datatype Event =
    | Click(req: ReadRequest)   // a chapter link, previous/next, the chapter menu, or a chapter URL on load
    | Answer(outcome: ReadOutcome, now: int)  // the read in flight settles
    | OpenDetail(idOrSlug: string, lookup: Option<Mapping.Record>, detail: Option<ComicDetail>, now: int)
    | Refilled(comicSlug: string, chSlug: string, detail: Option<ComicDetail>, now: int)  // a background refill answers

  /** Which ending of `readChapter` the event loop runs: the code as written,
      or the one with the comic-context check. */
  datatype SettleRule = AsWritten | WithContextCheck

  function SettleBy(rule: SettleRule, s: State, req: ReadRequest, outcome: ReadOutcome, now: int): State {
    match rule
    case AsWritten => SettleAsWritten(s, req, outcome, now)
    case WithContextCheck => Settle(s, req, outcome, now)
  }

  /** The state together with the read whose fetches are outstanding. */
  datatype Controller = Controller(state: State, inFlight: Option<ReadRequest>)

  /** The lock is held exactly while a read is in flight. */
  predicate LockMatches(c: Controller) {
    c.state.navigating <==> c.inFlight.Some?
  }

  /** One event of the reader, with `readChapter` ending by `rule`. A
      chapter request is dropped while the lock is held; an answer settles the
      read in flight and releases the lock; the detail page and a refill
      neither check nor touch the lock. */
  function Step(c: Controller, e: Event, rule: SettleRule): (r: Controller)
    ensures e.Click? && c.state.navigating ==> r == c
    ensures e.Click? && !c.state.navigating ==> r.inFlight == Some(e.req) && r.state.navigating
    ensures e.Answer? && c.inFlight.Some? ==> r.inFlight.None? && !r.state.navigating
    ensures e.Answer? && c.inFlight.None? ==> r == c
    ensures e.OpenDetail? || e.Refilled? ==>
      r.inFlight == c.inFlight && r.state.navigating == c.state.navigating
  {
    match e
    case Click(req) =>
      if c.state.navigating then c else Controller(BeginRead(c.state), Some(req))
    case Answer(outcome, now) =>
      (match c.inFlight
       case None => c
       case Some(req) => Controller(SettleBy(rule, c.state, req, outcome, now), None))
    case OpenDetail(idOrSlug, lookup, detail, now) =>
      c.(state := ShowDetail(c.state, idOrSlug, lookup, detail, now))
    case Refilled(comicSlug, chSlug, detail, now) =>
      c.(state := Refill(c.state, comicSlug, chSlug, detail, now))
  }

  /** The controller after the events one after another; the lock stays in
      step with the read in flight. */
  function Run(c: Controller, events: seq<Event>, rule: SettleRule): (r: Controller)
    ensures |events| == 0 ==> r == c
    ensures LockMatches(c) ==> LockMatches(r)
    decreases |events|
  {
    if |events| == 0 then c
    else
      var next := Step(c, events[0], rule);
      Run(next, events[1..], rule)
  }

  /** Reads accepted and reads settled along a run. */
  function Started(c: Controller, events: seq<Event>, rule: SettleRule): nat
    decreases |events|
  {
    if |events| == 0 then 0
    else
      var c' := Step(c, events[0], rule);
      (if c.inFlight.None? && c'.inFlight.Some? then 1 else 0) + Started(c', events[1..], rule)
  }

  function Finished(c: Controller, events: seq<Event>, rule: SettleRule): nat
    decreases |events|
  {
    if |events| == 0 then 0
    else
      var c' := Step(c, events[0], rule);
      (if c.inFlight.Some? && c'.inFlight.None? then 1 else 0) + Finished(c', events[1..], rule)
  }

  /** One step keeps the lock in step with the read in flight. */
  lemma StepKeepsLock(c: Controller, e: Event, rule: SettleRule)
    requires LockMatches(c)
    ensures LockMatches(Step(c, e, rule))
  {
  }

  /** Along a run, a read in flight is never joined by a second one: a
      chapter request that arrives while one is in flight changes nothing,
      and the read in flight is only ever ended, never replaced. */
  ghost predicate NoOverlap(c: Controller, events: seq<Event>, rule: SettleRule)
    decreases |events|
  {
    |events| > 0 ==>
      var next := Step(c, events[0], rule);
      && (c.inFlight.Some? && events[0].Click? ==> next == c)
      && (c.inFlight.Some? ==> next.inFlight == c.inFlight || next.inFlight.None?)
      && NoOverlap(next, events[1..], rule)
  }

  /** Whichever ending `readChapter` has, along any run the lock is held
      exactly while a read is in flight, reads never overlap, and every read
      accepted is settled or still the one in flight. */
  lemma {:induction false} RunSerialisesReads(c: Controller, events: seq<Event>, rule: SettleRule)
    requires LockMatches(c)
    ensures LockMatches(Run(c, events, rule))
    ensures NoOverlap(c, events, rule)
    ensures Started(c, events, rule) + (if c.inFlight.Some? then 1 else 0)
         == Finished(c, events, rule) + (if Run(c, events, rule).inFlight.Some? then 1 else 0)
    decreases |events|
  {
    if |events| > 0 {
      StepKeepsLock(c, events[0], rule);
      RunSerialisesReads(Step(c, events[0], rule), events[1..], rule);
    }
  }

  /** A chapter request made while a read is in flight changes nothing. */
  lemma ClickWhileBusy(c: Controller, req: ReadRequest, rule: SettleRule)
    requires LockMatches(c) && c.inFlight.Some?
    ensures Step(c, Click(req), rule) == c
  {
  }

  /** Once the read in flight settles, however it ends, the next chapter
      request is accepted. */
  lemma ClickAfterAnswer(c: Controller, outcome: ReadOutcome, now: int, req: ReadRequest, rule: SettleRule)
    requires LockMatches(c) && c.inFlight.Some?
    ensures var settled := Step(c, Answer(outcome, now), rule);
      && !settled.state.navigating
      && Step(settled, Click(req), rule).inFlight == Some(req)
      && Step(settled, Click(req), rule).state.navigating
  {
  }

  // ----------------------------------------------------------- the finding

  /** As written, reading a chapter of comic B after comic A's page was open
      (for instance by going back to a chapter URL of B) files B's history
      entry under A's title and image, and heads the reader with A's title;
      nor is B's chapter list fetched, so the menu keeps listing A's chapters.
      With the context check, B's entry gets the default title and image, the
      header names B, and B's list is fetched. */
  lemma StaleContextCounterexample()
    ensures var s := State(false, [Chapter("a-1", "Chapter 1")], ComicContext("comic-a", "Comic A", "a.png"),
                           [], DetailPage("comic-a", Some("a-1")));
      var req := ReadRequest("b-3", "");
      var d := ChapterData("Chapter 3", "comic-b", "", "", "Comic B", "");
      var written := SettleAsWritten(BeginRead(s), req, Fetched(None, Some(d)), 7);
      var fixed := Settle(BeginRead(s), req, Fetched(None, Some(d)), 7);
      var chapterLabel := Labels.NormalizeChapterLabel("Chapter 3");
      && |written.history| > 0 && written.history[0].slug == "comic-b"
      && written.history[0].title == "Comic A" && written.history[0].image == "a.png"
      && written.screen.ReaderPage? && written.screen.header == "Comic A - " + chapterLabel
      && !WantsRefillAsWritten(s, "comic-b")
      && |fixed.history| > 0 && fixed.history[0].slug == "comic-b"
      && fixed.history[0].title == History.UnknownTitle && fixed.history[0].image == History.DefaultImage
      && fixed.screen.ReaderPage? && fixed.screen.header == "Comic B - " + chapterLabel
      && WantsRefill(s, "comic-b")
  {
    var s := State(false, [Chapter("a-1", "Chapter 1")], ComicContext("comic-a", "Comic A", "a.png"),
                   [], DetailPage("comic-a", Some("a-1")));
    var s1 := BeginRead(s);
    assert s1.context == s.context && s1.history == [];
    var d := ChapterData("Chapter 3", "comic-b", "", "", "Comic B", "");
    assert ComicOf("", d) == "comic-b";
    assert Router.ResolveToken("b-3", None) == "b-3";
    assert "comic-a" != "comic-b" by {
      assert "comic-a"[6] != "comic-b"[6];
    }
    assert ContextFor(s1.context, "comic-b") == NoContext;
    assert "Comic A" + " - " == "Comic A - ";
    assert "Comic B" + " - " == "Comic B - ";
  }

  /** After a chapter opened without its comic's page has settled and its
      refill has answered, the cache and the comic's history entry describe
      that comic and the chapter just read, whichever ending `readChapter`
      has: on a fresh page no comic context is cached. */
  lemma DeepLinkRefill(history: seq<History.Entry>, req: ReadRequest, lookup: Option<Mapping.Record>,
                       d: ChapterData, detail: ComicDetail, now1: int, now2: int, rule: SettleRule)
    requires Truthy(ComicOf(req.comicSlug, d))
    requires Truthy(Router.ResolveToken(req.idOrSlug, lookup))
    ensures var comic := ComicOf(req.comicSlug, d);
      var chSlug := Router.ResolveToken(req.idOrSlug, lookup);
      var read := SettleBy(rule, BeginRead(Initial(history)), req, Fetched(lookup, Some(d)), now1);
      var filled := Refill(read, comic, chSlug, Some(detail), now2);
      && WantsRefillAsWritten(Initial(history), comic) && WantsRefill(Initial(history), comic)
      && filled.chapterList == detail.chapters
      && filled.context.slug == comic
      && filled.history[0].slug == comic
      && filled.history[0].lastChapterSlug == chSlug
      && (Truthy(detail.title) ==> filled.history[0].title == detail.title)
      && (forall i :: 1 <= i < |filled.history| ==> filled.history[i].slug != comic)
  {
  }

  /** Example: `/chapter/<U>`, where U was issued for the chapter
      "chapter-5" of "one-piece", opened on a fresh page, shows the reader for
      "chapter-5" and records "one-piece" as last read at "chapter-5". */
  lemma ChapterDeepLinkScenario(u: string, history: seq<History.Entry>, title: string, now: int, rule: SettleRule)
    requires |u| == Router.TokenLength && '/' !in u
    ensures var store := Mapping.GetOrCreateId([], true, Some("chapter-5"), Some("chapter"), u).store;
      var d := ChapterData(title, "one-piece", "", "", "", "");
      var c := Run(Controller(Initial(history), None),
                   [Click(ReadRequest(u, "")),
                    Answer(Fetched(Router.Lookup(Mapping.Resolve(store, true, u)), Some(d)), now)], rule);
      && Router.Route(Router.ChapterPrefix + u) == Router.ChapterReader(u)
      && c.inFlight.None? && !c.state.navigating
      && c.state.screen.ReaderPage? && c.state.screen.chapterSlug == "chapter-5"
      && |c.state.history| > 0
      && c.state.history[0].slug == "one-piece"
      && c.state.history[0].lastChapterSlug == "chapter-5"
  {
    Router.RouteSegment(u, "");
    assert Router.ChapterPrefix + u + "" == Router.ChapterPrefix + u;
    var r := Mapping.GetOrCreateId([], true, Some("chapter-5"), Some("chapter"), u);
    assert r.response == Mapping.Issued(u);
    Mapping.GetThenResolve([], "chapter-5", "chapter", u);
    var lookup := Router.Lookup(Mapping.Resolve(r.store, true, u));
    assert lookup == Some(Mapping.Record(u, "chapter-5", "chapter"));
    var d := ChapterData(title, "one-piece", "", "", "", "");
    assert ComicOf("", d) == "one-piece";
    var req := ReadRequest(u, "");
    var outcome := Fetched(lookup, Some(d));
    ReadOnce(Initial(history), req, outcome, now, rule);
    assert Router.ResolveToken(u, lookup) == "chapter-5";
  }

  /** An idle reader asked for one chapter, whose read then settles, ends
      idle in the settled state. */
  lemma ReadOnce(s: State, req: ReadRequest, outcome: ReadOutcome, now: int, rule: SettleRule)
    requires !s.navigating
    ensures Run(Controller(s, None), [Click(req), Answer(outcome, now)], rule)
         == Controller(SettleBy(rule, BeginRead(s), req, outcome, now), None)
  {
    var events := [Click(req), Answer(outcome, now)];
    var c0 := Controller(s, None);
    var c1 := Step(c0, Click(req), rule);
    assert c1 == Controller(BeginRead(s), Some(req));
    var c2 := Step(c1, Answer(outcome, now), rule);
    assert c2 == Controller(SettleBy(rule, c1.state, req, outcome, now), None);
    assert events[1..] == [Answer(outcome, now)];
    assert events[1..][1..] == [];
    assert Run(c0, events, rule) == Run(c1, [Answer(outcome, now)], rule);
    assert Run(c1, [Answer(outcome, now)], rule) == Run(c2, [], rule);
  }
}
