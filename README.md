# Vortopus: the live-broadcast page job and the event-address rules, in Dafny

This project models two parts of the Vortopus application.

- **The page-regeneration job** (`GenerateVortexHtmlJob`). It reads the library's live-broadcast page over WebDAV. It requires exactly one `<!--\s*Start:Blekkio\s*-->` marker, and exactly one `<!--\s*End:Blekkio\s*-->` marker after it. It renders the list of broadcasts and splices the rendered fragment between canonical markers. It writes the page back only when the body changed.
  - Before rendering, the job builds the view model. Each grouped event picks its link, time window and title from its playlist, its primary recording or its web-site ("Vortex") event.
  - Events are split into upcoming and past. The last upcoming event becomes the next broadcast. The rest are listed in reverse repository order, at most `maxUpcoming` of them.
  - Each past event is shown with one of three partials.
- **The events controller's deciding rules** (`EventsController`). These are:
  - finding a Norwegian or English web-site event address in a free text;
  - cutting the `start-date` and `end-date` properties of a scraped event page into form fields;
  - the create form's rule that an event page is scraped only when an address was found.

Modules (one file each):

- `Wrappers` (`wrappers.dfy`): `Option`, `Result`.
- `Markers` (`markers.dfy`): the marker pattern, a greedy matcher proved equal to the pattern's meaning, and `mb_split` (`Split`). Also the piece count, and the shape of a text that splits into two.
- `PageMerge` (`page_merge.dfy`): the check and splice of `handle` as a function `Merge`. Also its error rule, the frame property, idempotence and a worked example.
- `EventView` (`event_view.dfy`): records, `formatRecording`/`formatEvent`, the past-event partial, the upcoming/past partition, and the render arguments `PageArgsOf`.
- `VortexJob` (`vortex_job.dfy`): a stand-in `WebdavClient` class (a page map and a log of writes), and the `GenerateVortexHtmlJob` class.
  - `GenerateHtml` has the partition loop, the pop, the reverse and the cut. Its contract ties it to `PageArgsOf`.
  - `Handle` has the fetch, split, check, splice, compare and write. Its contract ties it to `Merge`.
- `EventsController` (`events_controller.dfy`): the two address patterns, with a matcher proved equal to their meaning; `VortexUrlFromText`; `explode`; the date fields (`ApplyVortexDates`); the scrape rule.

Two facts about the job's ordering:

- `array_pop` makes the last upcoming event, in repository order, the next broadcast.
- Neither list is sorted: both keep repository order.

## Model

| member | source | states |
|---|---|---|
| Markers.MarkerLenSound | app/Jobs/GenerateVortexHtmlJob.php:252 | what the greedy matcher finds at a position is a whole `<!--\s*TOKEN\s*-->` marker |
| Markers.MarkerLenComplete | app/Jobs/GenerateVortexHtmlJob.php:252 | every marker at a position is found, with its exact length, whatever follows it |
| Markers.MatchFromSound | app/Jobs/GenerateVortexHtmlJob.php:252 | the piece-by-piece matcher only accepts texts made of the pattern's words and runs of `\s` |
| Markers.MatchFromComplete | app/Jobs/GenerateVortexHtmlJob.php:252 | greedy `\s*` never has to give characters back, so every match of the pattern is found |
| Markers.MarkerLtOnlyFirst | app/Jobs/GenerateVortexHtmlJob.php:252 | a marker starts with `<` and holds no other `<`, so two markers never overlap |
| Markers.FirstMarker | app/Jobs/GenerateVortexHtmlJob.php:252 | the leftmost marker at or after a position, and that there is none when it returns nothing |
| Markers.Split | app/Jobs/GenerateVortexHtmlJob.php:252-256 | `mb_split` with the marker pattern: the text cut at each leftmost, non-overlapping marker, always at least one piece; how the pieces relate to the markers is stated by `SplitCount`, `SplitTwoShape` and `SplitTwoOf` |
| Markers.SplitCount | app/Jobs/GenerateVortexHtmlJob.php:252-256 | `mb_split` returns exactly one piece more than there are markers in the text |
| Markers.SplitTwoShape | app/Jobs/GenerateVortexHtmlJob.php:252-256 | a text that splits in two is the text before the only marker, the marker, and the text after it; neither piece holds a marker |
| Markers.SplitTwoOf | app/Jobs/GenerateVortexHtmlJob.php:252-256 | a marker between two marker-free texts splits the whole into exactly those two texts |
| Markers.CanonicalIsMarker | app/Jobs/GenerateVortexHtmlJob.php:268 | the `<!-- TOKEN -->` form the job writes back is matched by the whitespace-tolerant pattern |
| Markers.EndMarkerIsNotStart | app/Jobs/GenerateVortexHtmlJob.php:268 | the written end marker is never taken for a start marker |
| PageMerge.Merge | app/Jobs/GenerateVortexHtmlJob.php:252-268 | the checks and splice of `handle`: the start-marker error, the end-marker error, or the text before the start marker, the canonical markers around the fragment and the text after the end marker; its properties are stated by `MergeFailure`, `MergeKeepsOutside` and `MergeIdempotent` |
| PageMerge.MarkerCheck | app/Jobs/GenerateVortexHtmlJob.php:252-261 | both marker checks are decided before and independently of the generated fragment; the error raised is the same for every fragment |
| PageMerge.MergeFailure | app/Jobs/GenerateVortexHtmlJob.php:252-259 | the start error is raised exactly when the start marker does not occur once; otherwise the end error is raised exactly when the end marker does not occur once after it |
| PageMerge.MergeKeepsOutside | app/Jobs/GenerateVortexHtmlJob.php:268 | the new body is the old text before the start marker, the canonical start marker, the fragment, the canonical end marker, and the old text after the end marker |
| PageMerge.MergeOfCanonical | app/Jobs/GenerateVortexHtmlJob.php:252-268 | a page whose region between canonical markers holds a marker-free fragment merges by replacing just that fragment |
| PageMerge.MergeIdempotent | app/Jobs/GenerateVortexHtmlJob.php:268-276 | merging the same marker-free fragment into the merged page gives the same page, so a second run writes nothing |
| PageMerge.MergeExample | app/Jobs/GenerateVortexHtmlJob.php:268 | `A<start>OLD<end>B` with `NEW` becomes `A<start>NEW<end>B`, and merging `NEW` again changes nothing |
| EventView.FormatRecording | app/Jobs/GenerateVortexHtmlJob.php:128-138 | the title, `when` (the recording itself), web-site event, YouTube metadata, link and embed link of one recording; stated entry by entry through `FormatRecordings` |
| EventView.FormatRecordings | app/Jobs/GenerateVortexHtmlJob.php:128-138 | one formatted entry per recording, same length and order; each entry's title, links and metadata come from its recording, and its `when` is the recording itself |
| EventView.FormatEvent | app/Jobs/GenerateVortexHtmlJob.php:140-191 | the playlist and its link are used iff there are more than one public video and a playlist, otherwise the primary recording's link; the ordered time-window rules, with the exact condition for the web-site event's window; the title from the recording iff there is exactly one recording; the other fields from the primary recording; the recording list |
| EventView.FormatEvents | app/Jobs/GenerateVortexHtmlJob.php:217-223 | `array_map` of `formatEvent`: the same length, entry `i` formats event `i` |
| EventView.PastTemplateFor | app/Jobs/GenerateVortexHtmlJob.php:77-81 | the playlist partial iff a playlist is set; the multiple partial iff none is set and there are more than one public video; the single partial otherwise |
| EventView.PastTemplateOfEvent | app/Jobs/GenerateVortexHtmlJob.php:78-81 | on a formatted event, the playlist partial is chosen iff there are more than one public video and a playlist, so it never shows a single video |
| EventView.UpcomingOf | app/Jobs/GenerateVortexHtmlJob.php:204-210 | the events filed as upcoming, in the order given; every one has a primary recording; see `PartitionIsExact`, `PartitionIsByFlag` and `PartitionKeepsOrder` |
| EventView.PastOf | app/Jobs/GenerateVortexHtmlJob.php:204-210 | the events filed as past, in the order given; grouped input gives grouped output; see the same partition lemmas |
| EventView.PartitionIsExact | app/Jobs/GenerateVortexHtmlJob.php:204-210 | the upcoming and past lists together are a permutation of the events |
| EventView.PartitionIsByFlag | app/Jobs/GenerateVortexHtmlJob.php:204-210 | the upcoming list holds only events whose primary recording is upcoming, the past list only the others |
| EventView.PartitionKeepsOrder | app/Jobs/GenerateVortexHtmlJob.php:204-210 | partitioning a concatenation concatenates the partitions, so both lists keep the input order |
| EventView.UpcomingNonEmpty | app/Jobs/GenerateVortexHtmlJob.php:212-215 | the upcoming list is non-empty iff some event is upcoming |
| EventView.Reverse | app/Jobs/GenerateVortexHtmlJob.php:219 | `array_reverse`: the same length, entry `i` is entry `n - 1 - i` of the input |
| EventView.ShownUpcoming | app/Jobs/GenerateVortexHtmlJob.php:217-219 | the listed upcoming events number `min(maxUpcoming, upcoming - 1)`, and entry `i` is the upcoming event `i + 2` places from the end |
| EventView.PageArgsOf | app/Jobs/GenerateVortexHtmlJob.php:212-223 | a next broadcast exists iff the upcoming list is non-empty, and it is the last upcoming event; at most `maxUpcoming` further upcoming events are listed, in reverse repository order, never the next broadcast; all past events are listed in order |
| EventView.NextEvent | app/Jobs/GenerateVortexHtmlJob.php:212-215 | there is a next broadcast iff some event's primary recording is upcoming |
| VortexJob.GenerateVortexHtmlJob.constructor | app/Jobs/GenerateVortexHtmlJob.php:123-126 | the job starts with the live page's address, the given print flag and at most four listed upcoming events |
| VortexJob.GenerateVortexHtmlJob.GenerateHtml | app/Jobs/GenerateVortexHtmlJob.php:196-246 | the loop, pop, reverse and cut produce exactly the render of `PageArgsOf` for the events and `maxUpcoming` |
| VortexJob.GenerateVortexHtmlJob.Handle | app/Jobs/GenerateVortexHtmlJob.php:248-277 | a marker error leaves the page alone in both modes; print mode prints the fragment and writes nothing; otherwise the merged body is written iff it differs from the old one, keeping the page's other properties, and a write happens only on that path |
| EventsController.UrlMatchSound | app/Http/Controllers/EventsController.php:39-40 | a reported match is `http` or `https`, the fixed host and path with `.` standing for any character but a line feed, and a non-empty run of non-blanks that ends at a blank or at the end |
| EventsController.UrlMatchComplete | app/Http/Controllers/EventsController.php:39-40 | every such whole match at a position is the one reported: `https?` is deterministic and the greedy tail takes the whole run |
| EventsController.VortexUrlFromText | app/Http/Controllers/EventsController.php:37-47 | the Norwegian pattern's leftmost match, else the English pattern's, else null; stated by `NoUrl`, `NorwegianFirst`, `EnglishFallback` and `UrlShape` |
| EventsController.FindUrl | app/Http/Controllers/EventsController.php:41-42 | the leftmost position where the pattern matches, or none when it matches nowhere |
| EventsController.AnyMatchFound | app/Http/Controllers/EventsController.php:39-42 | a match of any length at a position, even one that stops before a blank, makes the matcher report a match there that is at least as long |
| EventsController.FirstUrlIsLeftmost | app/Http/Controllers/EventsController.php:41-42 | no match of any length starts before the position the search reports, so it is the start of `preg_match`'s leftmost match |
| EventsController.NoUrl | app/Http/Controllers/EventsController.php:41-44 | the result is null iff neither the Norwegian nor the English pattern matches anywhere in the text |
| EventsController.NorwegianFirst | app/Http/Controllers/EventsController.php:41-46 | if the Norwegian pattern matches anywhere, the result is its leftmost match, even when an English address comes earlier |
| EventsController.EnglishFallback | app/Http/Controllers/EventsController.php:41-46 | when the Norwegian pattern matches nowhere, the result is the English pattern's leftmost match |
| EventsController.UrlShape | app/Http/Controllers/EventsController.php:39-46 | a found address is a contiguous piece of the text that matches a pattern whole: it starts with `http://` or `https://`, runs to the next blank or the end, and holds a blank only at one of the three unescaped dots |
| EventsController.LooseDots | app/Http/Controllers/EventsController.php:39-40 | `http://www ub uio no/om/aktuelt/arrangementer/x` is accepted whole: the dots of the host name are any character |
| EventsController.Explode | app/Http/Controllers/EventsController.php:72-78 | `explode(' ', s)`: at least one piece and no piece holds a space; with `Join` a round trip both ways |
| EventsController.ExplodeHasSecond | app/Http/Controllers/EventsController.php:72-79 | a text has a second piece iff it holds a space |
| EventsController.JoinExplode | app/Http/Controllers/EventsController.php:72 | joining the pieces of `explode(' ', s)` with spaces gives `s` back |
| EventsController.ExplodeJoin | app/Http/Controllers/EventsController.php:72 | space-free pieces joined with spaces explode back into the same pieces |
| EventsController.ApplyVortexDates | app/Http/Controllers/EventsController.php:71-80 | the request fails on `start-date` when it is present without a second piece, else on `end-date` likewise, and succeeds iff neither fails; on success `start_date` and `p1_start_time` are the first two pieces of `start-date`, `p1_end_time` the second piece of `end-date`, exactly the keys of the present properties are added, and no other key changes |
| EventsController.DateWithoutTimeFails | app/Http/Controllers/EventsController.php:72-79 | a `start-date` or `end-date` without a space has no time field, so the request fails on it |
| EventsController.DateTimeFields | app/Http/Controllers/EventsController.php:71-80 | for a `DATE TIME ...` property the time field exists, the date is the first piece and the time the second |
| EventsController.ScrapeTarget | app/Http/Controllers/EventsController.php:125-128 | a page is scraped for a given text iff the text holds an address, and what is scraped is an event-page address |
| EventsController.ScrapedPages | app/Http/Controllers/EventsController.php:122-137 | a `from_recording` id no recording has ends the request at `findOrFail` before any page is scraped; otherwise the create form sets out to scrape one page per path whose text holds an address, the description's first; a first page that cannot be fetched, lacks one of the `title`, `content` and `location` properties read unguarded, or has a date without a time ends the request, so the `from_vortex` page is then not scraped; only the last page scraped can end the request, and every page is an event-page address |
| EventsController.DateWithoutTimeStopsScraping | app/Http/Controllers/EventsController.php:122-137 | a description address whose page has a `start-date` without a time is the only page scraped, whatever `from_vortex` holds |

## Left out

- Twig rendering: the template text, the `raw`, `dateformat` and `datetimeformat` filters, `setlocale`, and the `'???'` branch for a null time. The renderer is a function parameter of `GenerateHtml` and `Handle`. Only the partial choice for past events is modelled (`PastTemplateFor`).
- `YoutubeVideo::events`, `yt(...)`, `youtubeLink()`, `youtubeDescriptionAsHtml` and `upcoming()`. These are repository and model calls whose code and clock are not shown, so their results are fields of `Recording` and `Event`. `Instant` stands for a time and nothing is computed on it.
- IsUpcoming: an event without recordings counts as past. The repository never produces one, and the job would fail on it reading `recordings[0]`.
- FormatEvent: requires at least one recording. The repository groups recordings into events, and the source reads `recordings[0]` without a check.
- WebDAV: the client class is not part of this model. `WebdavClient` is a stand-in: a map of pages and a log of writes. A missing page gives the outcome `FetchFailed`, where the source would fail on a null body.
- `json_encode` is modelled as writing the fetched resource with only its content replaced. `\Log::info` is left out. `echo` is the `Printed` outcome.
- Handle: the changed-body test is exact string equality. PHP's `!=` compares two numeric strings as numbers, but a merged body always holds the markers, so it is never numeric.
- Markers: `mb_split` is modelled on characters with UTF-8 as the multibyte encoding. Its `\s` is taken as ASCII white space plus the Unicode white-space characters. Invalid byte sequences are not modelled.
- UrlShape: states that a found address holds a blank only at one of the three unescaped dots of `www.ub.uio.no`, not that it holds no blank at all. As written, `.` also matches a blank, as `LooseDots` shows.
- VortexUrlFromText: works on characters. PHP matches these patterns on bytes, so a multibyte character at a host-name dot is accepted here but not by the source. `\s` is the six ASCII white-space characters.
- ApplyVortexDates: models only the text values of the form data, with PHP `null` as `None`; the undefined-offset notice is modelled as the failure it becomes, without its message. The other keys `scrapeVortexPage` writes (`vortex_url`, `title`, `description` via `strip_tags`, `location`, `facebook_id` via the Facebook pattern) are left out. They are I/O and HTML scraping. The `die` on a failed fetch is modelled by `ScrapedPages`.
- ScrapedPages: whether a request "has" `from_recording` or `from_vortex` is an input (`Option`). The recording's description is a function parameter (empty when absent, `None` when no recording has the id, the `findOrFail` of app/Http/Controllers/EventsController.php:31), since it comes from the database. The page at an address is a function parameter too (`fetch`, `None` when the fetch fails), reduced to whether it has the `title`, `content` and `location` properties and to its two date properties. Those early exits (`findOrFail`, the `die`, the notices) are the ones the model covers; the response they produce is not modelled. The result lists the pages the form sets out to scrape; the page that ends the request is the last one listed.
- The remaining controller actions (`index`, `store`, `edit`, `update`, `show`, the resource actions, `getYoutubePlaylists`, `storeResource`), UUID generation, Carbon parsing and `app/Presentation.php` are ORM, HTTP and file glue with no rule to state.
- The `rec` the playlist partial refers to (app/Jobs/GenerateVortexHtmlJob.php:117) is a template quirk, left with the rest of the template text.
