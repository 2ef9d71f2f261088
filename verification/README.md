# Comic reader: mapping service and client navigation, modelled in Dafny

The system is a comic-reading web application with two parts.

- **Mapping service.** It gives every upstream slug (of a series or of a chapter) a stable random identifier. It is an append-only store of `{uuid, slug, type}` records behind `POST /api/get-id` and `GET /api/get-slug/:uuid`.
- **Browser client.** It routes `/series/<id>` and `/chapter/<id>` paths, resolves identifiers back to slugs, and keeps a reading history and a bookmark list in local storage. It also serialises chapter loads with a navigation lock.

This project models those rules as pure functions over immutable values and proves what they promise.

| file | module | models |
|---|---|---|
| `base.dfy` | `Base` | `Option`, and JavaScript's `\|\|` on string fields (an absent field is `""`) |
| `text.dfy` | `Text` | `trim`, ASCII case folding, `includes`, and the leftmost match of `\d+(\.\d+)?` |
| `mapping.dfy` | `Mapping` | the record store and the two service handlers |
| `content.dfy` | `Content` | the shapes of the upstream detail and chapter payloads |
| `history.dfy` | `History` | `saveHistory` and the resume-reading target |
| `bookmarks.dfy` | `Bookmarks` | `toggleBookmark` |
| `labels.dfy` | `Labels` | `normalizeChapterLabel` and `getTypeClass` |
| `router.dfy` | `Router` | `handleInitialLoad`, pushed paths, and resolution of 36-character identifiers |
| `session.dfy` | `Session` | the detail page, the chapter reader, the chapter-list refill, and the navigation lock |

Some inputs come from outside the client or service: local storage, the database, the clock, the identifier generator and the network. They are all parameters.

- Local storage is a list value.
- The database is a `seq<Record>` plus a `connected` flag.
- `Date` is a `now` argument.
- `uuidv4()` is a `candidate` argument. The unique index on `uuid` turns a colliding candidate into a 500 answer.
- Each fetch is an `Option` answer.

Three behaviours of the code are worth knowing, because a reader might expect otherwise:

- **Type field.** Any non-empty `type` is accepted. There is no closed set of kinds.
- **Connect first.** The database connection is attempted before the body is checked. An outage therefore answers 500 even to a request that lacks a slug.
- **History eviction.** On overflow the history drops its *last* entry by position. `History.SaveNewestFirst` proves that this is an oldest entry by timestamp, provided the list was newest first and no stored timestamp lies in the future.

## Model

| member | source | states |
|---|---|---|
| Mapping.FindByKey | api/index.js:45 | the earliest record with the given slug and type, and none exactly when no record has that key |
| Mapping.FindByUuid | api/index.js:61 | the earliest record with the given identifier, and none exactly when the identifier is not in the store |
| Mapping.GetOrCreateId | api/index.js:36-56 | 400 exactly when connected and slug or type is missing or empty, and then the store is untouched; a known key answers its identifier with the store unchanged; a new key with an unused candidate appends exactly `{candidate, slug, type}` and answers the candidate; 500 exactly when the database is unreachable or the candidate identifier is already taken for a new key; the store only grows, at its end; uniqueness of identifiers and of keys is preserved |
| Mapping.Resolve | api/index.js:58-67 | a found record is in the store and carries the identifier asked for; an unknown identifier is 404, never a fabricated record; a known one is found; 500 exactly when the database is unreachable |
| Mapping.ResolveUnique | api/index.js:16-20 | in a store with unique identifiers, resolving a record's identifier yields that very record |
| Mapping.GetOrCreateIdempotent | api/index.js:45-51 | a second request for the same key answers the same identifier and leaves the store as the first left it, whatever identifier the generator would draw |
| Mapping.GetThenResolve | api/index.js:45-62 | resolving an issued identifier yields the record of the requested slug and type |
| Mapping.Handle | api/index.js:36-67 | serving any single request changes no record, adds at most one at the end, and keeps both uniqueness invariants |
| Mapping.ServeAppendOnly | api/index.js:36-67 | along any sequence of requests no record changes or disappears, the store grows by at most one record per request, and both uniqueness invariants hold throughout |
| Mapping.IssuedStaysResolvable | api/index.js:58-63 | an identifier once issued keeps resolving to its record after any later requests |
| Mapping.OnePieceScenario | api/index.js:36-67 | Example: the first request creates a record, the second answers the same identifier, it resolves back, and an identifier never issued is not found |
| Text.SkipSpaces | public/script.js:517 | the first position from a given one that holds no white space; everything skipped is white space |
| Text.BackSpaces | public/script.js:517 | the end of a range once its trailing white space is dropped; everything dropped is white space and what is kept ends with none |
| Text.Trim | public/script.js:517 | `trim()` is a slice of its input with only white space cut at both ends, has no white space at either end, and is empty exactly when the input is all white space |
| Text.TrimFixed | public/script.js:517 | a string with no white space at either end is its own trim |
| Text.TrimIdempotent | public/script.js:517 | trimming twice equals trimming once |
| Text.Lower | public/script.js:55 | `toLowerCase` on ASCII: same length, each letter folded |
| Text.LowerUpper | public/script.js:519 | a word and its upper-cased spelling fold to the same text, so case-insensitive tests agree on them |
| Text.ContainsAt | public/script.js:56-58 | `includes(w)` holds exactly when `w` occurs at some position of the text |
| Text.StartsWithContains | public/script.js:519 | a text that starts with a word contains it |
| Text.DigitRun | public/script.js:521 | the length of the maximal leading run of digits |
| Text.NumberAt | public/script.js:521 | at a digit, the match of `\d+(\.\d+)?` is a numeral the text starts with; it is maximal, and it does not stop short of a `.digits` fraction |
| Text.FirstDigit | public/script.js:521 | the position of the first digit, and none exactly when there is no digit |
| Text.DigitRunPrefix | public/script.js:521 | cutting a text after its leading digit run, at a non-digit or the end, keeps that digit run |
| Text.FirstNumber | public/script.js:521-522 | there is a match exactly when the text has a digit; it is a numeral that starts at the first digit of the text, is followed by no digit, and when it has no fraction is not followed by a point and a digit: the leftmost greedy match |
| Text.OccursInSuffix | public/script.js:521 | a word that the suffix from a position starts with occurs in the text at that position |
| Labels.NormalizeChapterLabel | public/script.js:515-525 | empty input gives "Chapter"; a trimmed text mentioning "chapter" in any case is kept; a text without digits is kept trimmed; otherwise "Chapter " followed by the leftmost greedy numeral of the trimmed text; every label either mentions a chapter or carries no digit; the label is empty exactly for white-space-only input |
| Labels.ChapterMentioned | public/script.js:519 | any text starting with "Chapter" passes the case-insensitive chapter test |
| Labels.LabelKept | public/script.js:515-525 | a label with no white space at either end that mentions a chapter or has no digit is kept as it is |
| Labels.NumberedLabelKept | public/script.js:521-522 | "Chapter <numeral>" is kept as it is |
| Labels.NormalizeIdempotent | public/script.js:515-525 | normalising a non-empty label gives it back unchanged |
| Labels.TypeClassOf | public/script.js:53-60 | no type gives the default badge; manga when the folded type contains "manga"; manhwa exactly when it contains "manhwa" but not "manga"; manhua exactly when it contains "manhua" and neither earlier word |
| Labels.TypeClassIgnoresCase | public/script.js:55 | the badge of an upper-cased type is the badge of the type |
| Labels.ManhwaBadge | public/script.js:57 | "Manhwa" gets the manhwa badge |
| Labels.MixedBadge | public/script.js:56 | "Manga / Manhua" gets the manga badge, the first kind tested |
| Labels.PlainBadge | public/script.js:59 | "Comic" gets the default badge |
| History.Find | public/script.js:729 | the first entry of the comic, none exactly when the comic has no entry, and the head when the head is the comic's |
| History.Without | public/script.js:740 | exactly the entries of other comics, never more than before |
| History.WithoutKeepsOrder | public/script.js:740 | the filtered entries keep their relative order |
| History.Merge | public/script.js:731-738 | each field is the new value when non-empty, else the previous entry's when non-empty, else "Unknown Title", "assets/icon.png" or "Chapter ?" (also when the previous entry exists with that field empty); the last chapter read has no default; title, image and chapter title are never empty |
| History.Save | public/script.js:727-744 | the merged entry is at the head; the comic occurs nowhere else; the other entries follow in their previous order, and only the last of them can be cut; a list of at most 50 stays at most 50 |
| History.SaveUnique | public/script.js:740-741 | a history with one entry per comic keeps one entry per comic |
| History.WithoutUnique | public/script.js:740 | filtering keeps one entry per comic |
| History.HeadUnique | public/script.js:740 | in a history with one entry per comic, no later entry shares the head's comic |
| History.ConsUnique | public/script.js:741 | putting an entry of a new comic in front keeps one entry per comic |
| History.SaveNewestFirst | public/script.js:737-742 | a newest-first history stays newest first, and the entry evicted on overflow is no newer than any entry kept |
| History.WithoutNewestFirst | public/script.js:740 | filtering keeps newest-first order |
| History.HeadNewest | public/script.js:740 | in a newest-first history no later entry is newer than the head |
| History.ConsNewestFirst | public/script.js:741 | putting an entry no older than every other in front keeps newest-first order |
| History.SaveTwice | public/script.js:729-736 | of two saves for one comic, the later non-empty fields win and the empty ones fall back to what the earlier save stored |
| History.ResumeTarget | public/script.js:346-354 | the history's last chapter of the comic when there is one; else the last element of the chapter list when the list is non-empty; else no chapter |
| History.ResumeAfterRead | public/script.js:346-354 | once a chapter is recorded, the comic's page resumes at it |
| History.DetailVisitKeepsResume | public/script.js:442 | a detail-page visit, which records no chapter, leaves the resume target as it was |
| Bookmarks.Others | public/script.js:755 | exactly the bookmarks of other comics |
| Bookmarks.OthersAppend | public/script.js:755 | filtering out a comic distributes over concatenation |
| Bookmarks.IndexOf | public/script.js:754 | `findIndex`: -1 exactly when the comic is absent, else the first position holding it |
| Bookmarks.Toggle | public/script.js:752-759 | no other comic's bookmark is touched or reordered; an absent comic is appended with the given title and image; a present one loses one bookmark; no duplicates appear, and on a list without duplicates membership flips |
| Bookmarks.RemoveFirst | public/script.js:755 | splicing out the comic's first bookmark keeps the others and shortens the list by one; without duplicates the comic is then absent |
| Bookmarks.RemoveFirstUnique | public/script.js:755 | splicing a list without duplicates keeps it without duplicates and removes the comic |
| Bookmarks.AppendNew | public/script.js:756 | pushing an absent comic keeps the others, adds no duplicate, and makes the comic present |
| Bookmarks.ToggleTwiceAbsent | public/script.js:752-759 | toggling an absent comic twice restores the original list exactly |
| Bookmarks.ToggleTwicePresent | public/script.js:752-759 | toggling a present comic twice moves its bookmark to the end, with the second toggle's values |
| Bookmarks.OthersNoop | public/script.js:755 | filtering out an absent comic changes nothing |
| Router.UpToSlash | public/script.js:792 | the longest prefix without '/', ending at the first '/' or the end |
| Router.FieldAfterPrefix | public/script.js:792 | `split('/')[2]` of a path under "/series/" or "/chapter/" is the segment after the prefix up to the next '/' |
| Router.UpToSlashPrefix | public/script.js:792 | a slash-free text followed by '/' is cut exactly at that '/' |
| Router.UpToSlashWhole | public/script.js:792 | a slash-free text is its own first field |
| Router.Field | public/script.js:792 | `split('/')[n]` never contains '/', and a text without '/' splits into itself alone |
| Router.Route | public/script.js:785-806 | "/404.html" and only it stays put; series and chapter views come only from their prefixes with a non-empty, slash-free identifier; "/ongoing" and "/completed" open page 1 and nothing else does; "/history" and "/bookmarks" open their views and nothing else does; every other path goes home |
| Router.RouteSegment | public/script.js:791-800 | a series or chapter path opens the segment after its prefix whatever follows it, and goes home when the segment is empty |
| Router.SegmentOf | public/script.js:792 | the third field of prefix, segment and tail is the segment |
| Router.RouteOfPushedPath | public/script.js:785-806 | reloading a path the client pushed reopens the view that pushed it; listings reopen at page 1 |
| Router.PathOf | public/script.js:49-51 | every path handed to `updateURL` (at lines 152, 230, 237, 334, 543, 747 and 778) starts with '/', and the identifier of a detail or reader view is the third field of its path |
| Router.Lookup | public/script.js:39-47 | the client gets a record exactly when the service found one, and it is the record the service found |
| Router.ResolveToken | public/script.js:327-330 | an argument that is not 36 characters long, or whose lookup failed, is used as a literal slug; a 36-character argument that resolves is replaced by the mapped slug (the same rule as public/script.js:536-539) |
| Router.DeepLinkRoundTrip | public/script.js:327-334 | a path made from an issued identifier routes to it and resolves to the slug it was issued for, after any later service traffic |
| Router.RawSlugFallback | public/script.js:327-330 | a raw slug that is not 36 characters long, or is no known identifier, is used as it is |
| Session.ShowDetail | public/script.js:323-444 | a failed detail fetch shows not-found and changes nothing else; otherwise the chapter list and comic context become the comic's, the history is what `saveHistory` makes of the visit (so the comic's entry heads it, nowhere else, other entries in order), and the primary button resumes where the stored history says; the lock is untouched |
| Session.BeginRead | public/script.js:527-531 | while a read is in flight nothing changes; otherwise the lock is taken and nothing stored changes |
| Session.SafeRead | public/script.js:495-498 | `safeReadChapter` behaves exactly as a direct call of `readChapter` |
| Session.ComicOf | public/script.js:554-559 | the caller's comic slug, else the payload's parent, comic or relation slug, the first one non-empty |
| Session.ShowChapter | public/script.js:561-678 | the reader shows the chapter, goes back to the comic when one is known, and names its header by comic title and normalised label; with a comic, the history is what `saveHistory` makes of the read, so the comic's entry heads it with the chapter as last read, nowhere else, other entries in order; without a comic the history is untouched; the lock is released |
| Session.ContextFor | public/script.js:561-562 | the comic context used for a chapter is the cached one or none, and never another comic's |
| Session.SettleAsWritten | public/script.js:549-686 | `readChapter` as written: the lock is released on every path, the cache is untouched, a loaded chapter is shown and heads the history under its comic, and a non-empty cached title heads the reader and is filed under the chapter's comic whichever comic it was cached for |
| Session.Settle | public/script.js:549-686 | corrected member of the stale-context finding (not what the code does): the lock is released on every path (an exception, the early 404 return, success); the cache is untouched; a loaded chapter is shown, its comic's entry heads the history with this chapter as last read; another comic's cached title and image never reach the header or the entry |
| Session.Refill | public/script.js:701-713 | a failed refill changes nothing; otherwise the chapter list becomes the comic's, the context is the comic's slug, title and image, and the history is what `saveHistory` makes of the comic's own title and image and the chapter being read |
| Session.WantsRefillAsWritten | public/script.js:677 | the refill as written starts only for a known comic, and never while a chapter list is cached, whichever comic that list belongs to |
| Session.WantsRefill | public/script.js:677 | corrected member of the stale-context finding: it starts whenever the code as written does, and also whenever the cached context is another comic's; a cached list is kept only when it is the comic's own |
| Session.StepKeepsLock | public/script.js:104-111 | every step keeps the lock held exactly while a read is in flight |
| Session.Step | public/script.js:495-498 | one event of the reader, for either ending of `readChapter`: a chapter request while the lock is held changes nothing, an idle one takes the lock for that request, an answer releases the lock and ends the read in flight, and the detail page and a refill leave the lock alone |
| Session.Run | public/script.js:527-529 | a run of events from a state where the lock matches the read in flight ends in such a state |
| Session.RunSerialisesReads | public/script.js:527-529 | for either ending of `readChapter`, along any run the lock matches the read in flight, every chapter request arriving while a read is in flight changes nothing, and the read in flight is only ever ended, never replaced; reads started equal reads settled plus the one in flight |
| Session.ClickWhileBusy | public/script.js:495-498 | a chapter request while a read is in flight changes nothing |
| Session.ClickAfterAnswer | public/script.js:684-686 | once the read in flight settles, however it ends, the next chapter request is accepted |
| Session.StaleContextCounterexample | public/script.js:561-678 | as written, comic B's chapter read after comic A's page gets A's title and image in B's history entry and A's title in the header, and B's chapter list is not fetched; corrected, none of this happens |
| Session.DeepLinkRefill | public/script.js:672-713 | for either ending of `readChapter`, a chapter opened by a deep link on a fresh page starts the refill, and, once its refill has answered, leaves the cache and the history entry describing its comic and this chapter |
| Session.ReadOnce | public/script.js:527-686 | an idle reader asked for one chapter, whose read then settles, ends idle in the state its ending of `readChapter` gives |
| Session.ChapterDeepLinkScenario | public/script.js:796-798 | Example: `/chapter/<U>`, with U issued for "chapter-5", opens the reader for "chapter-5" and records "one-piece" as last read at "chapter-5" |

## Left out

- HTML rendering (cards, detail page markup, chapter list, dropdown, reader images, synopsis toggle, fullscreen, reader UI toggles): presentation only. Screens are reduced to the `Screen` value they would show.
- `fetch`, `fetchAPI`, `getUuidFromSlug`, `getSlugFromUuid` and the upstream comic API: transport. Their answers are parameters (`Option` values).
- `getUuidFromSlug` and pushed paths: it returns `undefined` when the service answers 400 or 500 with a JSON body, so a pushed URL can read `/series/undefined`. This is transport behaviour and is not modelled; `Router.PathOf` assumes the identifier was obtained.
- `connectToDatabase`, `/api/health`, Express and CORS wiring: connection management. A connection failure is the `connected` flag.
- `uuidv4()` randomness: replaced by the `candidate` argument.
- Concurrent first-time `get-id` requests: the schema has no unique index on (slug, type), so two concurrent misses can insert two records for one key. The model serves requests one at a time, where at most one record per key is proved.
- Request bodies whose `slug` or `type` is a non-string JSON value: the body fields are modelled as optional strings.
- Scroll and image-load progress percentages: floating-point arithmetic on browser metrics.
- localStorage JSON encoding, `Date().getTime()`, genre sorting with `localeCompare`, and the `popstate` and `DOMContentLoaded` wiring: the stored lists are values, time is `now`, and a reload is a call of `Router.Route`.
- Listings, search, genres and home (`showHome`, `showOngoing`, `showCompleted`, `renderGrid`): these fetch and render only. The router's choice of them is modelled.
- `showHistory`, `showBookmarks` and `checkBookmarkStatus`: they render the stored lists. The button state is `Bookmarks.Present`.
- The URL push inside `showDetail` and `readChapter` (`push = true`): it affects only the address bar. `Router.RouteOfPushedPath` states what reloading a pushed path shows.
- Session.Settle: an exception (`Threw`) is modelled as escaping before any state is written. In the source an exception while rendering the images leaves the loading screen replaced by a partial reader page; only the lock release is modelled for that path.
- Session.Step: a background refill answers as its own event and is applied whenever it arrives. Overlapping refills for different comics are not ordered.
- Text.Lower: folds ASCII letters only. This agrees with `/chapter/i` (a regular expression without the `u` flag compares ASCII-folded for these letters) and with `toLowerCase` for the badge keywords, since no other character lowercases to one of their letters.

## Findings

| source | as written | input that shows it | evidently intended | confidence | as-written member | corrected member |
|---|---|---|---|---|---|---|
| public/script.js:561-678 | `readChapter` takes the comic title and image from the cached comic context whatever comic that context belongs to. It refills the chapter list only when the cached list is empty. | Open comic A's page (context "comic-a", "Comic A", "a.png"). Then open chapter "b-3" of comic B without a comic slug, for example by going back to its URL; the payload's parent is "comic-b". B's history entry is saved with title "Comic A" and image "a.png". The header reads "Comic A - Chapter 3". The chapter menu keeps A's chapters, because no refill starts. | The cached context describes the comic being read only when its slug is that comic's. Otherwise the payload's titles and the history's own values are used, and B's chapter list is fetched. | not executed | Session.SettleAsWritten and Session.WantsRefillAsWritten (shown by Session.StaleContextCounterexample) | Session.Settle (with Session.ContextFor and Session.WantsRefill) |

The reader's event loop (`Session.Step`, `Session.Run`) takes the ending of `readChapter` as a parameter: `AsWritten` runs `Session.SettleAsWritten`, and `WithContextCheck` runs the corrected `Session.Settle`. The lock lemmas, `Session.ReadOnce`, `Session.DeepLinkRefill` and `Session.ChapterDeepLinkScenario` hold for both.
