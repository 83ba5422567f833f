# Cinema showtimes: a Dafny model of the schedule extractors and merges

This project models the core of a Tel Aviv Cinematheque showtimes service and
proves properties of it in Dafny. The core is:

- **The three schedule-page extractors.** The current Node extractor
  (`MovieParser.js`), the older one (`MovieParser.ts`) and the Kotlin one
  (`MovieParser.kt`). Each turns a daily schedule page into movie records:
  - the header date is rewritten as `YYYY-MM-DD`;
  - each grid container, and each title inside a popup wrapper, becomes a
    record with title, alt name, year, image URL, site URL and screenings;
  - the legacy listing parse groups screening blocks by title.
- **The record merger.** This is `BatchedFetcher._mergeMovies` and the two
  controller loops that do the same work. Records are folded by title. The
  first record of a title keeps its metadata, and later records add only
  screenings whose (date-time, venue) key is new.
- **`BatchedFetcher`.** This covers:
  - the configuration merge with its defaults;
  - the split of the date list into batches;
  - the per-batch start delay;
  - the request index of each date;
  - the fetch–concatenate–merge pipeline.
- **The two HTTP controllers.**
  - The compiled `MovieController.js` covers cache-aside over one Redis key,
    the list of today and the next 29 days, sequential fetching with a
    one-second pause, an empty list for every failed date, the merge,
    force-refresh, and `deleteCache` with answers 503, 200, 404 and 500.
  - The TypeScript `MovieController.ts` has no cache, fetches in parallel,
    and never checks the response status.
- **The Kotlin record classes** (`Movie.kt`). This covers constructor
  defaults, `equals`/`hashCode` on (title, year) and (dateTime, venue), and
  `String.hashCode` in 32-bit two's-complement arithmetic.
- **The frontend helpers.**
  - `utils/dateTime.ts` covers the evening cutoff, the time comparator with
    JavaScript `Number`/NaN semantics, and the Hebrew weekday label computed
    with ECMAScript `Date` arithmetic.
  - `utils/movies.ts` covers the morning-only test, the earliest screening
    time, grouping by date with weekend and morning flags and a sort, the
    count of dates per title, and the set of all dates.
  - `services/cache.ts` is the one-hour browser response cache.

The modules follow the program:

| module | models |
|---|---|
| `Wrappers` | `Option` for `undefined`/`null`, `Result` for thrown errors |
| `Text` | JavaScript and Kotlin `split`, `join`, `trim`, `takeWhile`, `\d{4}` matching, `substringBefore` |
| `JsNumber` | `Number(s)` on digit strings, NaN-aware `<`, `<=`, `===` and `-` |
| `Calendar` | ECMAScript day numbers, `setDate(getDate() + i)`, `toISOString().split('T')[0]`, `new Date(y, m - 1, d)`, `getDay()` |
| `Model` | `Movie` and `Screening`, the screening key, the duplicate-free append |
| `Jsoup` | Jsoup's `Element.text()` and `Elements.text()`: white-space runs squeezed, invisible characters dropped, ends trimmed, matches joined by a space |
| `Dom` | a schedule page after CSS selection: every match of each selector, with its raw text |
| `Fetch` | a request's outcome, the date URL, `flat()` and the per-date result list |
| `NodeExtract` | field rules shared by both Node extractors |
| `ParserJs`, `ParserTs`, `ParserKt` | the three extractors |
| `Merge`, `MergeLoop` | the merge as a fold and as the controllers' loop |
| `KotlinModel` | the Kotlin `equals`/`hashCode`, defaults and `LinkedHashSet` insertion |
| `BatchedFetcher`, `ControllerJs`, `ControllerTs` | fetching and serving |
| `DateTimeUtils`, `MovieUtils`, `MovieGrouping`, `BrowserCache` | the frontend |

## Modelling decisions

- **Pages and the network.** A page is the raw texts of every element each
  selector matches (the `Dom` module); no HTML or CSS engine is modelled. The
  Node extractors read the first match; the Kotlin extractor reads all of
  them through Jsoup's text normalisation (the `Jsoup` module). The network is a function
  from URL to `Response(status, page)` or `Failed`, where `Failed` covers a
  thrown fetch, a timeout and a body that cannot be read. Redis is a state
  with a connection flag, the entry under the key, and a flag for commands
  that throw. The JSON codec is a pair of functions. The clock is a calendar
  date plus a time-of-day text, and `Math.random()` is a real in [0, 1). The
  browser cache's clock is an integer millisecond reading.
- **Maps as sequences.** A JavaScript `Map` keyed by title is a sequence of
  records with distinct titles, in insertion order, because that is the order
  `Array.from(map.values())` returns. A Kotlin `LinkedHashSet` is a sequence
  with insertion under the class's own `equals`.
- **Merging.** The merge is a fold over the flattened per-date lists. The
  extractors' `_addOrUpdateMovie` map is proved to be that fold over
  deduplicated records. The controllers' loop is a method proved to compute
  the fold.
- **Numbers and time zones.** JavaScript numbers are integers or NaN, and
  `Number(s)` is modelled on digit strings. Local time is UTC, so
  `new Date(y, m - 1, d).getDay()` and `toISOString()` agree on the calendar
  day.
- **Thrown errors.** A frontend exception, such as reading `split(' ')[1]`
  of a date-time without a space, is a `Result` error. The Kotlin
  `IndexOutOfBoundsException` on a malformed header is an `Err` result of
  `KtParseFromDateHtml`.
- **Which extractor each caller uses.** `MovieController.ts` and
  `BatchedFetcher.ts` import `./MovieParser`, which resolves to
  `MovieParser.ts`, so they use the older extractor. The compiled
  `MovieController.js` uses `MovieParser.js`.
- **Behaviours worth noting:**
  - `deleteCache` hands a throwing Redis command to `next(error)`, and
    Express's default error handler answers it with status 500;
  - the TypeScript controller never looks at the response status, so an
    error page is parsed like a schedule (`ErrorPageIsParsed`);
  - `isBeforeEvening("17")` is false although 17:00 is before evening: the
    missing minutes read as NaN, and `17 === 17 && NaN <= 30` is false
    (`IsBeforeEveningHourOnly`);
  - every caller builds `new JSDOM(html)` without a URL
    (`MovieController.js:153`, `BatchedFetcher.ts:135`,
    `MovieController.ts:26`), so the `date` URL parameter is always absent
    in practice and the URL branch of `ParserJs.DateTextFallback` yields
    "".

## Model

| member | source | states |
|---|---|---|
| Text.SplitSpec | backend-node/src/services/MovieParser.js:40 | no piece of `s.split(sep)` contains the separator, and joining the pieces with it gives `s` back |
| Text.SplitJoin | backend-node/src/services/MovieParser.js:40 | splitting a join of separator-free parts gives the parts back (the inverse direction) |
| Text.SplitCount | backend-node/src/services/MovieParser.js:40-41 | `split` yields one more piece than there are separators, which is what the `length >= 3` test counts |
| Text.SplitAtSeparator | backend-node/src/services/MovieParser.js:40 | a separator occurrence is a cut: the pieces on its two sides are split independently |
| Text.TrimStartSpec | backend-node/src/services/MovieParser.js:24 | what the leading trim keeps is a suffix starting with a non-space, and what it drops is all spaces |
| Text.TrimEndSpec | backend-node/src/services/MovieParser.js:24 | what the trailing trim keeps is a prefix ending with a non-space, and what it drops is all spaces |
| Text.TrimBy | backend-node/src/services/MovieParser.js:24 | `trim()` gives the slice of `s` left after dropping its leading and trailing spaces, and its ends are not spaces |
| Text.TrimmedIff | backend-node/src/services/MovieParser.js:24 | a string is its own trim exactly when it neither starts nor ends with white space, and a trim is always such a string |
| Text.TrimIdempotent | backend-node/src/services/MovieParser.js:99-101 | trimming a trimmed string changes nothing |
| Text.TrimKeepsCount | backend-node/src/services/MovieParser.js:24 | trimming keeps every non-space character with its multiplicity |
| Text.TrimEmptyIff | backend-node/src/services/MovieParser.js:90-92 | a text trims to "" (so the title is skipped) exactly when it is all white space |
| Text.TrimPadded | backend-node/src/services/MovieParser.js:40 | a word between runs of spaces trims to the word |
| Text.TakeWhile | backend-node/src/services/MovieParser.js:5-13 | `takeWhile` returns the longest prefix whose elements all satisfy the predicate: a prefix, all satisfying, stopped by the first failure |
| Text.TakeWhileUpTo | backend-node/src/services/MovieParser.js:5-13 | on a run of satisfying elements followed by a failing one, `takeWhile` returns exactly the run |
| Text.FirstFourDigits | backend-node/src/services/MovieParser.js:94 | `match(/\d{4}/)` then `parseInt`: absent iff no four consecutive digits occur, else the value (at most 9999) of a four-digit run |
| Text.SubstringBefore | backend/src/main/kotlin/com/example/backend/service/MovieParser.kt:55 | `substringBefore(d)` is a prefix ending right before the first occurrence of `d`, or the whole string when `d` does not occur |
| Text.PadNat | backend-node/src/controllers/MovieController.js:128 | the zero-padded decimal rendering of `n` has at least `width` digits and reads back as `n` |
| JsNumber.ToNumber | frontend/src/utils/dateTime.ts:2 | `Number(s)` is a non-negative integer exactly when the trimmed text is empty or all digits, and NaN otherwise |
| JsNumber.Minus | frontend/src/utils/dateTime.ts:11-13 | a subtraction is NaN iff either side is, and otherwise the exact difference |
| JsNumber.ToNumberPadded | frontend/src/utils/dateTime.ts:17 | a zero-padded date piece reads back as its number |
| Calendar.AddDays | backend-node/src/controllers/MovieController.js:126-127 | `setDate(getDate() + i)` gives a valid calendar date exactly `i` days later |
| Calendar.NextDay | backend-node/src/controllers/MovieController.js:127 | the day after a valid date is valid and its day number is one more, across month and year ends |
| Calendar.DayNumberInjective | backend-node/src/controllers/MovieController.js:125-129 | two valid dates with the same day number are the same date |
| Calendar.IsoDatePart | backend-node/src/controllers/MovieController.js:128 | `toISOString().split('T')[0]` is the `YYYY-MM-DD` text of the date for years 0 to 9999 |
| Calendar.IsoDateInjective | backend-node/src/controllers/MovieController.js:128 | distinct dates with four-digit years have distinct ISO texts |
| Calendar.UpcomingDates | backend-node/src/controllers/MovieController.js:125-129 | the date list has exactly `count` entries |
| Calendar.UpcomingDatesConsecutive | backend-node/src/controllers/MovieController.js:125-129 | entry `i` is the ISO text of the date `i` days after today, and no date occurs twice |
| Calendar.WeekDay | frontend/src/utils/dateTime.ts:19 | `getDay()` of a day number is in 0..6 |
| Calendar.JsLocalDay | frontend/src/utils/dateTime.ts:18 | `new Date(y, m - 1, d)` is an Invalid Date unless all three numbers are read, and a valid one stays within the time-value range |
| Calendar.IsoDateReadBack | frontend/src/utils/dateTime.ts:17-18 | reading an ISO date back with `split('-').map(Number)` and `new Date` gives its own day number from year 100 on, and the year-1900 shift below that |
| Calendar.SampleDate | frontend/src/utils/dateTime.ts:16-24 | the sample page date 2025-01-25 is day 20113 and a Saturday |
| Model.AppendNew | backend-node/src/services/BatchedFetcher.ts:162-169 | appending screenings whose key is new keeps the existing list as a prefix, gives the union of the keys, adds only incoming screenings with new keys, and keeps a duplicate-free list duplicate-free |
| Model.AppendOne | backend-node/src/services/BatchedFetcher.ts:163-168 | one screening is appended iff `some` finds no screening with its (dateTime, venue) |
| Model.AppendNewConcat | backend-node/src/services/MovieParser.js:170-174 | appending two lists one after the other is appending their concatenation |
| Model.IndexOfTitle | backend-node/src/controllers/MovieController.js:170 | `find` by title yields the first position holding the title, and none exactly when no record has it |
| Merge.MergeMovies | backend-node/src/services/BatchedFetcher.ts:154-176 | `_mergeMovies` yields each distinct input title exactly once, in order of the title's first occurrence |
| Merge.MergeFirstWins | backend-node/src/services/BatchedFetcher.ts:157-172 | each merged movie is the first record of its title, with that record's screenings followed by every later screening of the title whose key is new |
| Merge.MergeKeepsFirstMetadata | backend-node/src/services/BatchedFetcher.ts:170-172 | every merged movie keeps the metadata of the first record of its title, and that record's screenings come first in its list |
| Merge.MergeUnionsKeys | backend-node/src/services/BatchedFetcher.ts:160-169 | every merged movie's screening keys are the union of the keys of all input records with its title |
| Merge.MergePreservesNoDup | backend-node/src/services/BatchedFetcher.ts:162-168 | when no input record repeats a key, no merged movie does |
| Merge.AbsorbKeepsTitleOrder | backend-node/src/services/BatchedFetcher.ts:157-172 | absorbing one more record keeps the titles distinct, equal to the input's titles, and in first-occurrence order |
| Merge.AbsorbNew | backend-node/src/services/BatchedFetcher.ts:170-172 | a record with an unseen title is appended at the end, which is its first occurrence, so titles stay distinct and in first-occurrence order |
| Merge.AbsorbExisting | backend-node/src/services/BatchedFetcher.ts:160-169 | a record with a known title changes only that title's screenings, so the title set and order stay as they were |
| Merge.AddAllIsMerge | backend-node/src/services/MovieParser.js:156-175 | the extractors' add-or-update map over a page's records equals the merge of those records with each one's own repeated keys dropped |
| Merge.AddAllProperties | backend-node/src/services/MovieParser.js:156-175 | the add-or-update map has distinct titles in first-occurrence order, the first record's metadata, no repeated key, and the union of the title's keys |
| Merge.Dedup | backend-node/src/services/MovieParser.js:165-174 | a record entering the map keeps its metadata and its keys, with repeated keys dropped |
| MergeLoop.SomeSameKey | backend-node/src/controllers/MovieController.js:173 | the `some` loop answers true iff a screening with the same (dateTime, venue) is present |
| MergeLoop.PushNew | backend-node/src/controllers/MovieController.js:172-176 | pushing each incoming screening whose key is absent, checked against the growing list, is the duplicate-free append |
| MergeLoop.FindTitle | backend-node/src/controllers/MovieController.js:170 | the `find` loop returns the first position with the title, or none iff no record has it |
| MergeLoop.AbsorbOne | backend-node/src/controllers/MovieController.js:170-180 | one pass of the loop body is one step of the merge fold |
| MergeLoop.MergeAll | backend-node/src/controllers/MovieController.js:169-182 | the controllers' loop over `moviesArrays.flat()` computes the fold `_mergeMovies` computes, with distinct titles equal to the input's |
| Fetch.DateUrl | backend-node/src/controllers/MovieController.js:145 | the requested URL is the schedule base followed by the date |
| Fetch.DateUrlInjective | backend-node/src/controllers/MovieController.js:145 | distinct dates are requested at distinct URLs |
| Fetch.MapDates | backend-node/src/controllers/MovieController.ts:20-36 | the per-date lists come back one per date, in date order |
| Fetch.FlattenSkipsEmpty | backend-node/src/controllers/MovieController.js:158-166 | a date whose list is `[]` contributes nothing to `flat()`: the result is as if the date had been left out |
| NodeExtract.Truthy | backend-node/src/services/MovieParser.js:117-120 | `x || undefined` is present iff `x` is a non-empty string, and then it is `x` |
| NodeExtract.FirstTruthy | backend-node/src/services/MovieParser.js:103-104 | `a || b` picks `a` when it is a non-empty string and otherwise `b` if non-empty |
| NodeExtract.HeaderChain | backend-node/src/services/MovieParser.js:61-65 | the optional chain on the header yields a value iff the header exists and has a second space-separated token |
| NodeExtract.HeaderChainOfDate | backend-node/src/services/MovieParser.js:61-65 | a header "weekday dd.mm.yy" gives "20yy-mm-dd" |
| NodeExtract.HeaderChainExample | backend-node/src/services/MovieParser.js:61 | the sample header "שבת 25.01.25" gives "2025-01-25" |
| NodeExtract.SecondSegment | backend-node/src/services/MovieParser.js:98 | the second '\|' piece of the description, trimmed, is trimmed |
| NodeExtract.SecondSegmentOf | backend-node/src/services/MovieParser.js:98 | for "prefix\|segment" with no other bar, the second piece is the trimmed segment |
| NodeExtract.HebrewCutShape | backend-node/src/services/MovieParser.js:99-101 | the take-while-not-Hebrew cut, trimmed, is trimmed and holds no Hebrew-block character |
| NodeExtract.HebrewCut | backend-node/src/services/MovieParser.js:99-101 | a segment "name spaces hebrew…" is cut back to the name |
| NodeExtract.AltName | backend-node/src/services/MovieParser.js:98-101 | the alt name is absent or a non-empty, trimmed, Hebrew-free text, and absent when the description has no second piece |
| NodeExtract.AltNameOfSegment | backend-node/src/services/MovieParser.js:96-101 | a description "prefix\|name hebrew…" yields the alt name `name` |
| NodeExtract.AltNameExample | backend-node/src/services/MovieParser.js:98-101 | "דרמה \|Ex-Husbands הבעלים לשעבר" yields "Ex-Husbands" |
| NodeExtract.YearOf | backend-node/src/services/MovieParser.js:94 | the year is present iff the title paragraph holds four consecutive digits, and lies in 0..9999 |
| NodeExtract.Stamp | backend-node/src/services/MovieParser.js:113 | with a date the stamp is date, space, time; without one it is the time alone |
| ParserJs.DateTextOfHeader | backend-node/src/services/MovieParser.js:58-65 | a well-formed header decides the date whatever the URL says |
| ParserJs.DateTextFallback | backend-node/src/services/MovieParser.js:58-65 | without a header, or with one lacking a space, the `date` URL parameter (or "") is used |
| ParserJs.GridShowings | backend-node/src/services/MovieParser.js:108-115 | the container's screenings are exactly the non-blank trimmed times, stamped with the date, at venue "Cinematheque TLV" |
| ParserJs.GridRecord | backend-node/src/services/MovieParser.js:86-123 | a container gives no record iff its trimmed title link text is empty; otherwise a record with a non-empty trimmed title, a four-digit year, non-empty URLs and the container's screenings |
| ParserJs.GridSeeds | backend-node/src/services/MovieParser.js:72-74 | the grid records, in document order, all carry a non-empty trimmed title |
| ParserJs.WrapperShowings | backend-node/src/services/MovieParser.js:142-147 | a wrapper title gets one screening iff the wrapper's trimmed `div.time` is non-empty |
| ParserJs.WrapperRecord | backend-node/src/services/MovieParser.js:124-155 | a wrapper title gives no record iff its trimmed link text is empty; a record never has an image |
| ParserJs.TitleSeeds | backend-node/src/services/MovieParser.js:78-82 | every record of a wrapper's titles has a non-empty trimmed title, no image and the wrapper's screening |
| ParserJs.WrapperSeeds | backend-node/src/services/MovieParser.js:76-83 | every wrapper record has no image, at most one screening, and a non-empty trimmed title |
| ParserJs.ParseFromDateHtml | backend-node/src/services/MovieParser.js:55-85 | `parseFromDateHtml` yields each title of the page's records once, with no repeated screening key |
| ParserJs.ParseSkipsUntitled | backend-node/src/services/MovieParser.js:91-92 | no record with a blank title survives |
| ParserJs.ParseFirstRecordWins | backend-node/src/services/MovieParser.js:156-175 | each parsed movie has the metadata of the first record with its title (a grid record before any wrapper record) and the union of that title's screening keys |
| ParserJs.LegacyShowing | backend-node/src/services/MovieParser.js:37-48 | a screening block gives a screening iff its text holds at least two bars, always at venue "סינמטק תל אביב" |
| ParserJs.LegacyShowingOfText | backend-node/src/services/MovieParser.js:39-46 | "25-01-2025 \| שבת \| 11:00" gives the screening "25-01-2025 11:00" |
| ParserJs.LegacyPieces | backend-node/src/services/MovieParser.js:39-40 | such a text is already trimmed and splits into its three pieces |
| ParserJs.LegacyShowings | backend-node/src/services/MovieParser.js:35-49 | a title block yields at most one screening per block, all at the Hebrew venue |
| ParserJs.Entries | backend-node/src/services/MovieParser.js:20-34 | each title block becomes its trimmed `h3` title and its screenings |
| ParserJs.GroupGroups | backend-node/src/services/MovieParser.js:26-31 | grouping by title yields each entry title once, each movie holding all screenings of its title in page order |
| ParserJs.GatherKnown | backend-node/src/services/MovieParser.js:26-31 | adding an entry whose title is already grouped appends its screenings to that movie and keeps the grouping correct |
| ParserJs.GatherFresh | backend-node/src/services/MovieParser.js:26-31 | adding an entry with a new title creates its movie at the end and keeps the grouping correct |
| ParserJs.LegacyParseGroups | backend-node/src/services/MovieParser.js:14-54 | the legacy `parse` yields one movie per distinct block title ("" included) with that title's screenings in page order |
| ParserTs.TsDateText | backend-node/src/services/MovieParser.ts:61-66 | without a header the older extractor's date is "" |
| ParserTs.TsDateIgnoresUrl | backend-node/src/services/MovieParser.ts:61-66 | the older extractor's date does not depend on the URL |
| ParserTs.TsDateVersusJs | backend-node/src/services/MovieParser.ts:61-66 | the two Node extractors' dates differ only where the current one falls back to the URL and the older one has "" |
| ParserTs.TsShowings | backend-node/src/services/MovieParser.ts:93-97 | one screening per `a.cal_link span.time`, untrimmed, stamped "date time" even when the date is "" |
| ParserTs.TsGridRecord | backend-node/src/services/MovieParser.ts:68-99 | a container's record takes title and site URL from `h3 a`, the image from the parent's wrapper, the alt name by the shared rule, and one screening per time |
| ParserTs.TsParseFromDateHtml | backend-node/src/services/MovieParser.ts:60-100 | exactly one record per grid container, in document order |
| ParserTs.TsIgnoresWrappers | backend-node/src/services/MovieParser.ts:68 | popup wrappers have no effect on the output |
| ParserTs.TsKeepsDuplicates | backend-node/src/services/MovieParser.ts:68-99 | repeated titles give repeated records and a repeated time gives repeated screenings |
| ParserTs.TsLeadingSpace | backend-node/src/services/MovieParser.ts:95 | without a date every screening's date-time starts with a space |
| ParserTs.TsAgreesWithJs | backend-node/src/services/MovieParser.ts:69-92 | with a non-blank `h3 a` title and a description, both Node extractors read the same title, alt name, year and site URL |
| Jsoup.ElementTextNormalises | backend/src/main/kotlin/com/example/backend/service/MovieParser.kt:17 | `text()` is always normalised (single spaces, no invisible characters, trimmed ends), leaves exactly the normalised texts unchanged, and is idempotent |
| Jsoup.SqueezeKeepsSolid | backend/src/main/kotlin/com/example/backend/service/MovieParser.kt:17 | squeezing white space keeps every character that is neither white space nor invisible, in order |
| Jsoup.ElementTextKeepsCount | backend/src/main/kotlin/com/example/backend/service/MovieParser.kt:24 | `text()` keeps the count of every visible non-space character, such as the '\|' a block is split on |
| Jsoup.ElementsTextOfOne | backend/src/main/kotlin/com/example/backend/service/MovieParser.kt:42 | the joined text of a single match is that element's text, and the text itself when already normalised |
| Jsoup.ElementsTextKeepsCount | backend/src/main/kotlin/com/example/backend/service/MovieParser.kt:24 | the joined text of several matches holds each visible non-space character as often as all the matches together |
| Jsoup.PaddedText | backend/src/main/kotlin/com/example/backend/service/MovieParser.kt:75 | a normalised word between runs of white space reads back as the word |
| ParserKt.KtShowingOfText | backend/src/main/kotlin/com/example/backend/service/MovieParser.kt:27-34 | a trimmed block text gives a screening iff it holds at least two bars, at the Hebrew venue with no language or subtitles |
| ParserKt.KtLegacyShowing | backend/src/main/kotlin/com/example/backend/service/MovieParser.kt:24-34 | a block's joined `p` texts give a screening iff its paragraphs hold at least two bars between them, at the Hebrew venue with no language or subtitles |
| ParserKt.KtLegacyShowingOfOne | backend/src/main/kotlin/com/example/backend/service/MovieParser.kt:24 | a block with one already-normalised paragraph is read from that paragraph's own text |
| ParserKt.KtLegacyShowings | backend/src/main/kotlin/com/example/backend/service/MovieParser.kt:23-35 | a title block yields at most one screening per block |
| ParserKt.KtEntries | backend/src/main/kotlin/com/example/backend/service/MovieParser.kt:15-24 | each title block becomes the trimmed joined text of all its `h3` elements, and its screenings |
| ParserKt.KtGatherIsAddOrUpdate | backend/src/main/kotlin/com/example/backend/service/MovieParser.kt:20-33 | one `getOrPut` plus `add` step is one add-or-update step of the Node map |
| ParserKt.KtGatherDedup | backend/src/main/kotlin/com/example/backend/service/MovieParser.kt:20-33 | a Kotlin grouping step on set-valued screenings is the Node step followed by dropping repeated keys |
| ParserKt.KtGroupIsAddAll | backend/src/main/kotlin/com/example/backend/service/MovieParser.kt:15-36 | the Kotlin grouping is the record-by-record add-or-update of bare records |
| ParserKt.KtGroupVersusJs | backend/src/main/kotlin/com/example/backend/service/MovieParser.kt:11-38 | the Kotlin grouping is the Node grouping with every screening list turned into a set |
| ParserKt.KtParseGroups | backend/src/main/kotlin/com/example/backend/service/MovieParser.kt:11-39 | Kotlin `parse` yields one movie per distinct block title, defaults elsewhere, and the first screening of every key of its title in page order |
| ParserKt.KtDate | backend/src/main/kotlin/com/example/backend/service/MovieParser.kt:43-45 | the Kotlin date exists iff the header text has a second token with three '.' pieces, and is then "20yy-mm-dd" |
| ParserKt.KtHeaderTextOfOne | backend/src/main/kotlin/com/example/backend/service/MovieParser.kt:42 | with one header whose text is already normalised, the joined header text is that text |
| ParserKt.KtDateVersusNode | backend/src/main/kotlin/com/example/backend/service/MovieParser.kt:42-45 | for one normalised header: with exactly three pieces the Kotlin date equals the Node chain; where the Node chain has a value and Kotlin throws, there are fewer than three pieces |
| ParserKt.KtDateOfDate | backend/src/main/kotlin/com/example/backend/service/MovieParser.kt:42-45 | a header "weekday dd.mm.yy" gives "20yy-mm-dd" |
| ParserKt.KtDateExamples | backend/src/main/kotlin/com/example/backend/service/MovieParser.kt:42-45 | the sample header gives "2025-01-25", and a page without a header throws |
| ParserKt.KtDateLeadingSpace | backend/src/main/kotlin/com/example/backend/service/MovieParser.kt:42-45 | a header with a leading space still gives "2025-01-25" in Kotlin, because `text()` trims it, while the Node chain reads the weekday as the date |
| ParserKt.KtAltName | backend/src/main/kotlin/com/example/backend/service/MovieParser.kt:53-57 | the Kotlin alt name is absent without a second piece, and otherwise non-blank with no white space at either end |
| ParserKt.SubstringBeforeFree | backend/src/main/kotlin/com/example/backend/service/MovieParser.kt:55 | the part before the first occurrence of a word holds no occurrence of it |
| ParserKt.TrimFree | backend/src/main/kotlin/com/example/backend/service/MovieParser.kt:56 | trimming cannot create an occurrence of a word |
| ParserKt.KtAltNameFree | backend/src/main/kotlin/com/example/backend/service/MovieParser.kt:54-57 | the Kotlin alt name never contains the cut-off word "שלושה" |
| ParserKt.KtGridRecord | backend/src/main/kotlin/com/example/backend/service/MovieParser.kt:47-79 | a container's record joins the texts of every `h3 a` and every `p` under its `div.title` matches for title and year, takes the first link's `href` ("" without one) iff there is a link, the parent's image, the alt name of the normalised first description, and the normalised times as a set in first-seen order |
| ParserKt.KtParseFromDateHtml | backend/src/main/kotlin/com/example/backend/service/MovieParser.kt:41-81 | the Kotlin page parse throws iff the header date cannot be read, and otherwise gives one record per container |
| ParserKt.KtScreeningsVersusTs | backend/src/main/kotlin/com/example/backend/service/MovieParser.kt:72-78 | the Kotlin screenings are the older Node extractor's on the normalised time texts, with repeated keys dropped |
| ParserKt.KtTimePadded | backend/src/main/kotlin/com/example/backend/service/MovieParser.kt:75 | a time text " 11:30 " gives the Kotlin date-time "date 11:30", but the older Node extractor's "date  11:30 " |
| ParserKt.KtAgreesWithTs | backend/src/main/kotlin/com/example/backend/service/MovieParser.kt:47-79 | for a container with one `div.title`, at most one `h3 a` and one `p`, and normalised texts: the same year as the older Node extractor, the same screenings up to repeats, and the same image and site URL where those are non-empty |
| KotlinModel.Wrap32 | backend/src/main/kotlin/com/example/backend/model/Movie.kt:32-36 | `Int` arithmetic wraps to [-2^31, 2^31) modulo 2^32 and leaves in-range values alone |
| KotlinModel.WrapCongruent | backend/src/main/kotlin/com/example/backend/model/Movie.kt:32-36 | values congruent modulo 2^32 wrap to the same `Int` |
| KotlinModel.WrapStep | backend/src/main/kotlin/com/example/backend/model/Movie.kt:33-34 | `31 * h + c` may wrap the accumulator at each step or only at the end |
| KotlinModel.JavaHash | backend/src/main/kotlin/com/example/backend/model/Movie.kt:33 | the `h = 31 * h + unit` recurrence stays a 32-bit integer |
| KotlinModel.StringHash | backend/src/main/kotlin/com/example/backend/model/Movie.kt:33 | `String.hashCode` over the UTF-16 code units is a 32-bit integer |
| KotlinModel.JavaHashIsWrappedPoly | backend/src/main/kotlin/com/example/backend/model/Movie.kt:33 | wrapping at every step equals wrapping the exact polynomial once |
| KotlinModel.StringHashCode | backend/src/main/kotlin/com/example/backend/model/Movie.kt:33 | the hash loop over UTF-16 code units computes the wrapped polynomial |
| KotlinModel.StringHashExamples | backend/src/main/kotlin/com/example/backend/model/Movie.kt:33 | "ab" hashes to 3105, and "Aa" and "BB" collide at 2112 |
| KotlinModel.MovieHash | backend/src/main/kotlin/com/example/backend/model/Movie.kt:32-36 | `Movie.hashCode` is a 32-bit integer |
| KotlinModel.ScreeningHash | backend/src/main/kotlin/com/example/backend/model/Movie.kt:53-57 | `Screening.hashCode` is a 32-bit integer |
| KotlinModel.EqualsAreEquivalences | backend/src/main/kotlin/com/example/backend/model/Movie.kt:20-30 | both `equals` overrides are reflexive, symmetric and transitive, as `Any.equals` requires |
| KotlinModel.HashConsistentWithEquals | backend/src/main/kotlin/com/example/backend/model/Movie.kt:20-57 | equal movies and equal screenings hash equally, and screening equality is exactly the merges' (dateTime, venue) key |
| KotlinModel.MovieHashWithoutYear | backend/src/main/kotlin/com/example/backend/model/Movie.kt:34 | without a year a movie hashes as 31 times its title hash, wrapped |
| KotlinModel.NewMovie | backend/src/main/kotlin/com/example/backend/model/Movie.kt:3-19 | `Movie(title = t)` has every other field at its default and no screenings |
| KotlinModel.ScreeningSetAddIsAppend | backend/src/main/kotlin/com/example/backend/service/MovieParser.kt:33 | adding to a `LinkedHashSet<Screening>` is the merges' duplicate-free append of one screening |
| KotlinModel.ToScreeningSetIsAppendNew | backend/src/main/kotlin/com/example/backend/service/MovieParser.kt:72-78 | `toMutableSet()` keeps the first screening of every key in order, with the same keys and no repeats |
| KotlinModel.ToMovieSetSpec | backend/src/main/kotlin/com/example/backend/service/MovieParser.kt:38 | `toSet()` holds no two equal movies, has an equal for every input movie, and is no larger than the input |
| KotlinModel.ToMovieSetOfDistinct | backend/src/main/kotlin/com/example/backend/service/MovieParser.kt:38 | when no two movies share a title, `toSet()` keeps the map's values as they are |
| BatchedFetcher.MergeConfig | backend-node/src/services/BatchedFetcher.ts:36-38 | each given field overrides its default (5, 500, 2000, 30000) and each absent one takes it |
| BatchedFetcher.MergeConfigLaws | backend-node/src/services/BatchedFetcher.ts:22-38 | no overrides give the defaults, a full set gives itself, and merging is idempotent |
| BatchedFetcher.BatchesShape | backend-node/src/services/BatchedFetcher.ts:74-80 | the batches put together give the dates; each holds 1 to size dates and all but the last exactly size |
| BatchedFetcher.BatchAt | backend-node/src/services/BatchedFetcher.ts:76-77 | batch `b` is `dates.slice(b * size, b * size + size)` |
| BatchedFetcher.BatchCount | backend-node/src/services/BatchedFetcher.ts:74-80 | the number of batches is the ceiling of the number of dates over the size |
| BatchedFetcher.TwelveInFives | backend-node/src/services/BatchedFetcher.ts:74-80 | twelve dates in batches of five give batches of 5, 5 and 2 |
| BatchedFetcher.SplitIntoBatches | backend-node/src/services/BatchedFetcher.ts:74-80 | the split loop yields the batches: they flatten to the dates, each slice starts at its offset, and the sizes are as above |
| BatchedFetcher.BatchDelay | backend-node/src/services/BatchedFetcher.ts:92-94 | the first batch waits 0; any other waits `random * (max - min) + min`, in [min, max) when min < max |
| BatchedFetcher.ScaledDelay | backend-node/src/services/BatchedFetcher.ts:93 | the random delay reaches `min` but not `max` when min < max, is `min` when they are equal, and lies in (max, min] when the configuration has them reversed |
| BatchedFetcher.DefaultDelays | backend-node/src/services/BatchedFetcher.ts:92-98 | with the defaults, exactly the batches after the first wait, and for between 500 and 2000 ms |
| BatchedFetcher.RequestIndexIsPosition | backend-node/src/services/BatchedFetcher.ts:106 | the logged index `batchIndex * size + index + 1` is the date's 1-based position in the full list |
| BatchedFetcher.DateMovies | backend-node/src/services/BatchedFetcher.ts:116-148 | a failed request or a non-2xx status gives `[]`; a 2xx page gives one record per grid container |
| BatchedFetcher.AllBatchesInDateOrder | backend-node/src/services/BatchedFetcher.ts:55-62 | `Promise.all` over the batches, flattened, gives the per-date lists in date order |
| BatchedFetcher.FetchMoviesForDates | backend-node/src/services/BatchedFetcher.ts:45-69 | the result is the merge of the per-date lists in date order, with distinct titles |
| BatchedFetcher.BatchSizeIrrelevant | backend-node/src/services/BatchedFetcher.ts:45-69 | the batch size changes the schedule, never the result |
| BatchedFetcher.FailedDateIsSkipped | backend-node/src/services/BatchedFetcher.ts:130-147 | a date that fails or answers non-2xx leaves the result as if it had not been requested |
| BatchedFetcher.AllFailed | backend-node/src/services/BatchedFetcher.ts:141-148 | when every request fails the result is empty |
| ControllerJs.CachedMovies | backend-node/src/controllers/MovieController.js:73-93 | the cache read is a miss when not connected, when the command throws, when the key is absent or "", or when the text does not decode; otherwise the decoded list |
| ControllerJs.StoreMovies | backend-node/src/controllers/MovieController.js:97-116 | the store is a no-op when not connected or throwing, and otherwise sets the encoded list with a TTL of 86400 seconds |
| ControllerJs.JsDateMovies | backend-node/src/controllers/MovieController.js:145-165 | a failed or non-2xx request gives `[]`, and a 2xx page the current extractor's records |
| ControllerJs.Dates | backend-node/src/controllers/MovieController.js:125-129 | thirty dates are requested |
| ControllerJs.DatesAreThirtyDays | backend-node/src/controllers/MovieController.js:125-129 | the dates are today and the next 29 calendar days in order, written `YYYY-MM-DD`, none twice |
| ControllerJs.FetchSequentially | backend-node/src/controllers/MovieController.js:131-167 | the loop collects one list per date in date order, pausing 0 ms before the first request and 1000 ms before each later one |
| ControllerJs.FreshMovies | backend-node/src/controllers/MovieController.js:121-186 | the fresh list has distinct titles |
| ControllerJs.FetchAndParseMovies | backend-node/src/controllers/MovieController.js:121-186 | `_fetchAndParseMovies` returns the merge of all thirty dates' lists, with distinct titles |
| ControllerJs.FailedDateIsSkipped | backend-node/src/controllers/MovieController.js:158-166 | a date that fails or answers non-2xx leaves the result as if it had not been requested |
| ControllerJs.GetMovies | backend-node/src/controllers/MovieController.js:21-46 | a hit answers the cached list without fetching or storing; a miss answers the fresh list and then stores it |
| ControllerJs.ForceRefresh | backend-node/src/controllers/MovieController.js:51-68 | a forced refresh always fetches, answers the fresh list and stores it |
| ControllerJs.MissThenHit | backend-node/src/controllers/MovieController.js:21-39 | on a working connection with a faithful codec, a miss followed by another request is a hit with the same answer and no fetch |
| ControllerJs.StoreOutcomeInvisible | backend-node/src/controllers/MovieController.js:35-39 | whether the store succeeds has no effect on the answer to a miss |
| ControllerJs.DeleteCache | backend-node/src/controllers/MovieController.js:190-218 | `deleteCache` answers 503 iff not connected, 500 iff the command throws, 200 iff a key was deleted and 404 iff none existed, and removes the key when connected |
| ControllerJs.DeleteThenMiss | backend-node/src/controllers/MovieController.js:190-218 | after a delete the next read misses and a second delete answers 404 |
| ControllerTs.TsDateMovies | backend-node/src/controllers/MovieController.ts:20-34 | a failed request gives `[]`, and any response, error pages included, gives one record per grid container |
| ControllerTs.GetMovies | backend-node/src/controllers/MovieController.ts:7-56 | the answer has distinct titles, exactly those of the thirty dates' records |
| ControllerTs.FailedDateIsSkipped | backend-node/src/controllers/MovieController.ts:30-33 | a failed date leaves the answer as if it had not been requested |
| ControllerTs.AgreesWithFetcher | backend-node/src/controllers/MovieController.ts:7-56 | where no response has a non-2xx status, the answer is what the batched fetcher computes for the same dates, at any batch size |
| ControllerTs.ErrorPageIsParsed | backend-node/src/controllers/MovieController.ts:23-29 | a 404 page with grid containers yields records here, and none in the batched fetcher |
| DateTimeUtils.IsBeforeEveningClock | frontend/src/utils/dateTime.ts:1-4 | for an HH:MM clock time, before evening iff at most 17:30 |
| DateTimeUtils.IsBeforeEveningHourOnly | frontend/src/utils/dateTime.ts:2-3 | an hour without minutes is before evening iff the hour is before 17, so "17" is not although 17:00 is |
| DateTimeUtils.IsBeforeEveningUnreadable | frontend/src/utils/dateTime.ts:2-3 | a time whose hour does not read as a number is never before evening |
| DateTimeUtils.CompareParts | frontend/src/utils/dateTime.ts:10-13 | the comparison is a number only when both hours are |
| DateTimeUtils.CompareAntisymmetric | frontend/src/utils/dateTime.ts:6-14 | swapping the arguments negates the comparison, NaN included |
| DateTimeUtils.CompareReflexive | frontend/src/utils/dateTime.ts:6-14 | a time compares equal to itself iff its hour and minute both read as numbers |
| DateTimeUtils.CompareIsLexicographic | frontend/src/utils/dateTime.ts:6-14 | on readable times the comparison's sign is the (hour, minute) order |
| DateTimeUtils.CompareChronological | frontend/src/utils/dateTime.ts:6-14 | on HH:MM clock times the sign of the comparison is chronological order |
| DateTimeUtils.WeekDayOf | frontend/src/utils/dateTime.ts:17-19 | the weekday of a date text is in 0..6, or absent for an Invalid Date |
| DateTimeUtils.FormatHebrewDate | frontend/src/utils/dateTime.ts:16-24 | the label starts with the date text itself |
| DateTimeUtils.FormatIsoDate | frontend/src/utils/dateTime.ts:16-24 | for a `YYYY-MM-DD` date from year 100 on, the label names the date's Gregorian weekday |
| DateTimeUtils.FormatSampleDate | frontend/src/utils/dateTime.ts:16-24 | "2025-01-25" is labelled Saturday (שבת) |
| DateTimeUtils.FormatNotADate | frontend/src/utils/dateTime.ts:17-23 | a text whose year piece is not a number is labelled "undefined" |
| MovieUtils.DatePart | frontend/src/utils/movies.ts:33 | `split(' ')[0]` holds no space |
| MovieUtils.TimePart | frontend/src/utils/movies.ts:16 | `split(' ')[1]` is defined iff the date-time has a space |
| MovieUtils.DateTimeParts | frontend/src/utils/movies.ts:16 | "date time" splits back into its date and its time |
| MovieUtils.Every | frontend/src/utils/movies.ts:15-19 | `every` is true iff every screening's hour is before 17, and throws only when some screening has no time part |
| MovieUtils.EveryStopsAtFirstFalse | frontend/src/utils/movies.ts:15-19 | `every` stops at the first screening not before 17, so a later one without a time part does not throw |
| MovieUtils.IsMorningOnlyMovie | frontend/src/utils/movies.ts:12-20 | a movie without screenings is not morning-only; otherwise it is iff every hour is before 17, throwing only for a missing time part |
| MovieUtils.MorningIsBeforeEvening | frontend/src/utils/movies.ts:18 | an hour before 17 is before evening, but 17:00 to 17:30 are before evening without being morning |
| MovieUtils.FirstMin | frontend/src/utils/movies.ts:25 | the element a stable sort puts in front: no element is earlier, and every element before it is later |
| MovieUtils.PartsBeforeStrict | frontend/src/utils/dateTime.ts:6-14 | "the comparator is negative" is irreflexive and transitive, NaN included |
| MovieUtils.FirstMinIsMinimal | frontend/src/utils/movies.ts:25 | no pair compares before the one the first-minimum scan picks |
| MovieUtils.EarliestPresence | frontend/src/utils/movies.ts:22-26 | the earliest time is one of the screenings' time parts, and absent iff none has one |
| MovieUtils.EarliestIsMinimal | frontend/src/utils/movies.ts:22-26 | the earliest time is one of the screenings' times, absent iff none has one, and, when every time part reads as numbers, no time is earlier |
| MovieUtils.EarliestReadableIsMinimal | frontend/src/utils/movies.ts:22-26 | when the earliest time reads as numbers, no other readable time is earlier, whatever the unreadable ones are |
| MovieUtils.AllDatesSpec | frontend/src/utils/movies.ts:96-107 | the set holds exactly the dates some screening falls on |
| MovieUtils.DatesByTitleSpec | frontend/src/utils/movies.ts:77-88 | every title gets an entry, even without screenings, holding exactly the dates of its movies' screenings |
| MovieUtils.GetMovieDatesCount | frontend/src/utils/movies.ts:76-94 | the counts have exactly the titles as keys |
| MovieUtils.MovieDatesCountSpec | frontend/src/utils/movies.ts:76-94 | each title's count is the number of distinct dates its movies are screened on |
| MovieGrouping.TimedIffNoMissingTime | frontend/src/utils/movies.ts:57-58 | the grouping's precondition is that every screening has a time part |
| MovieGrouping.SlotDatesAreAllDates | frontend/src/utils/movies.ts:31-33 | the dates visited are the dates the all-dates helper collects |
| MovieGrouping.CollectBuckets | frontend/src/utils/movies.ts:31-62 | the loop files every screening under its own date, one entry per date in first-seen order |
| MovieGrouping.ByTitleGroups | frontend/src/utils/movies.ts:47-55 | within a date each title appears once, as the first movie of that title, with all its screenings that day in order |
| MovieGrouping.Insert | frontend/src/utils/movies.ts:66-70 | inserting a movie adds exactly that movie |
| MovieGrouping.SortBy | frontend/src/utils/movies.ts:66-70 | the sort is a permutation |
| MovieGrouping.SortBySorted | frontend/src/utils/movies.ts:66-70 | once every earliest time reads as numbers, the sorted list is in earliest-time order |
| MovieGrouping.InsertSorted | frontend/src/utils/movies.ts:66-70 | inserting a movie with a readable earliest time into a sorted list keeps it sorted |
| MovieGrouping.SortByEarliest | frontend/src/utils/movies.ts:66-70 | the movies are reordered, none added or lost, and in earliest-time order once all earliest times read as numbers |
| MovieGrouping.SortAll | frontend/src/utils/movies.ts:65-71 | each entry keeps its date and both flags, and its movies are a reordering of the entry's, in earliest-time order once all earliest times read as numbers |
| MovieGrouping.GroupMoviesByDate | frontend/src/utils/movies.ts:28-74 | the grouping throws iff some screening has no time part |
| MovieGrouping.MorningOnlyOfDate | frontend/src/utils/movies.ts:57-60 | a date stays morning-only iff every screening on it is before evening |
| MovieGrouping.GroupMoviesByDateSpec | frontend/src/utils/movies.ts:28-74 | one entry per screening date, flagged weekend iff Friday or Saturday and morning-only iff all its screenings are before evening, holding a reordering of the per-title gathering |
| MovieGrouping.GroupEntryFlags | frontend/src/utils/movies.ts:36-59 | one entry's weekend flag is its date's, and its morning flag holds iff all the date's screenings are before evening |
| MovieGrouping.GroupTitles | frontend/src/utils/movies.ts:47-71 | a date's movies are each title once with all its screenings that day, sorted by earliest time when those read as numbers |
| MovieGrouping.GroupKeepsScreenings | frontend/src/utils/movies.ts:31-55 | across all entries the screenings are exactly the input's, with multiplicity, and each lies in the entry of its own date part, the only entry with that date |
| MovieGrouping.CollectBag | frontend/src/utils/movies.ts:31-55 | filing the slots adds each screening exactly once |
| MovieGrouping.EarliestDefined | frontend/src/utils/movies.ts:64-71 | every movie in a date entry has an earliest screening time |
| MovieGrouping.WeekendIsFridayOrSaturday | frontend/src/utils/movies.ts:34-37 | a `YYYY-MM-DD` date from year 100 on is a weekend iff its Gregorian weekday is Friday or Saturday |
| BrowserCache.Get | frontend/src/services/cache.ts:10-31 | a read answers the stored data iff the cache works and the entry exists and is at most an hour old; an expired entry is deleted |
| BrowserCache.Set | frontend/src/services/cache.ts:33-49 | a write stores the data stamped with now and touches no other key; a failing cache is left as it was |
| BrowserCache.Clear | frontend/src/services/cache.ts:51-57 | a clear empties a working cache |
| BrowserCache.GetAfterSet | frontend/src/services/cache.ts:18-26 | data written at `t` is read back until `t` plus one hour, and after that the read answers nothing and removes it |
| BrowserCache.OneHourBoundary | frontend/src/services/cache.ts:2 | an entry exactly 3,600,000 ms old is still served, and one 1 ms older is not |
| BrowserCache.SetOtherKey | frontend/src/services/cache.ts:33-49 | writing one key leaves every other key's answer as it was |
| BrowserCache.GetAfterClear | frontend/src/services/cache.ts:51-57 | after a clear nothing is served |
| BrowserCache.GetSettles | frontend/src/services/cache.ts:10-31 | a miss stays a miss later, and a hit leaves the cache unchanged |
| BrowserCache.Unavailable | frontend/src/services/cache.ts:27-30 | when cache storage throws, reads answer nothing and writes and clears change nothing |

## Left out

- I/O is left out: HTML parsing and CSS selection (jsdom, Jsoup), HTTP, Redis, Express, logging, React rendering. Pages arrive as already-selected texts, and the network, Redis, the JSON codec, the clock and `Math.random()` are parameters.
- Concurrency and timing are left out: `Promise.all`, `p-limit`, `setTimeout` pauses and aborts. Their order of results is modelled; their timing is not. A timed-out request is a `Failed` response.
- The Redis TTL is recorded on the entry but never expires in the model, because Redis's clock is outside it.
- The `next(error)` path of `getCinemathequeMovies` and `forceRefreshCinemathequeMovies` is left out, because nothing in `_fetchAndParseMovies` throws past its per-date `catch` once I/O is a parameter.
- ControllerTs.GetMovies: the outer `catch` answering 500 is left out for the same reason.
- ControllerJs.DeleteCache: `next(error)` on a throwing command is modelled as status 500, the status Express's default error handler sends.
- JsNumber.ToNumber: reads only trimmed digit strings. Signs, decimals, exponents, hexadecimal and `Infinity` are read as NaN rather than as their number, because the times and dates in this code are digit strings.
- Local time is taken to be UTC. In other zones `toISOString()` and `new Date(y, m - 1, d)` can disagree on the calendar day.
- Time values beyond the ±8.64e15 ms limit outside years 100 to 9999 are only bounded, not modelled exactly.
- MovieGrouping.SortBy: modelled as a stable insertion sort. With a comparator that is inconsistent because of NaN, V8's TimSort may order differently, so sortedness is proved only where every earliest time reads as numbers.
- MovieGrouping.GroupMoviesByDate: the result is a sequence of entries in first-seen order. JavaScript objects list integer-like keys first, but no `YYYY-MM-DD` key is integer-like.
- MovieGrouping.GroupMoviesByDate: `grouped` is a plain `{}`, so a date part that names an `Object.prototype` member (`constructor`, `toString`, `__proto__`) finds that member instead of a fresh entry and the call throws a TypeError. The model treats every date part as a fresh key; real date parts are `YYYY-MM-DD` texts.
- MovieUtils.DatesByTitleSpec: `datesByMovie` is a plain `{}`. A title that names an `Object.prototype` member (`constructor`, `toString`, `valueOf`, `__proto__`) finds that member, is not given a `Set`, and the following `add` throws a TypeError. The model gives every title its own entry.
- MovieUtils.GetMovieDatesCount: for the same titles the source throws a TypeError before counting; the model counts them like any other title.
- MovieUtils.MovieDatesCountSpec: holds only for titles that are not `Object.prototype` member names, for the reason above.
- MovieUtils.GetEarliestScreeningTime: modelled as the first minimum of the time parts under the comparator. Where some time part reads as NaN the comparator is inconsistent and V8's sort may put a different element first; the model promises only that nothing compares before its pick.
- `getAllDatesInRange` (movies.ts:113-131) is left out, because it depends only on the clock and produces no data the other helpers consume.
- The `.jpg` attribute selectors and `parentElement` lookups are left out; the image URL arrives already selected.
- BatchedFetcher.SplitIntoBatches: requires a batch size of at least 1. With 0 or less the source loop never ends or yields nothing useful, and no caller passes such a size.
- BatchedFetcher.MergeConfig: an override given explicitly as `undefined` is treated as absent. JavaScript spread would copy the `undefined`.
- ControllerJs.CachedMovies: a cached value that parses to a non-array is not modelled; the decoder yields a movie list or nothing.
- The legacy `parse` of `MovieParser.ts` is textually the same as that of `MovieParser.js` and is modelled once (`ParserJs.LegacyParse`).
- Object identity and mutation are left out. The source pushes screenings into the record it received, so a caller's record is changed too; the model returns new values.
- BrowserCache.Get: a cached body that fails to parse as JSON, or a failed delete of an expired entry, is treated like the cache being unavailable for that read. The cache name `cinema-cache-v1` is a constant with no effect.
- Jsoup's text: the spaces Jsoup inserts at block-element and `<br>` boundaries inside one element are not modelled; each element's raw text is given as one string.
- ParserKt.KtGridRecord: nested `div.title` elements, which `select` returns once each, are taken to be given once already.
- ParserKt.KtAgreesWithTs: proved only for a container with one `div.title`, at most one `h3 a` and one `p`, and normalised texts. With more matches Kotlin joins their texts while the Node extractor reads the first, and with padded texts Kotlin normalises where Node does not (`KtTimePadded`).
- ParserKt.KtDateVersusNode: proved only for one header whose text is already normalised; with padding the two differ (`KtDateLeadingSpace`).
- Kotlin `MovieService`/`MovieCacheService`, the Kotlin HTTP controller and the React components are not part of this model.
