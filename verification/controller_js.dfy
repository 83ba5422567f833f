/** The compiled controller (`MovieController.js`): cache-aside over a single
    Redis key, the 30-date list, sequential fetching with a pause before every
    request but the first, an empty list for every date that fails, the
    merge loop, and the status mapping of `deleteCache`. Redis, the JSON
    codec, the clock and the network are parameters: Redis as a state with a
    connectivity flag and a flag for commands that throw, the codec as a pair
    of functions, the clock as a calendar date and time-of-day text, the
    network as a function from URL to response. */
module ControllerJs {
  import opened Wrappers
  import opened Model
  import opened Merge
  import opened Dom
  import opened Fetch
  import opened MergeLoop
  import Calendar
  import ParserJs

  const NumberOfDaysToFetch: nat := 30
  const CacheKey: string := "cinemathequeMovies"
  const OneHourInSeconds: int := 60 * 60
  const CacheExpirationSeconds: int := OneHourInSeconds * 24
  const FetchTimeoutMs: int := 30000
  const DelayBetweenFetchesMs: int := 1000

  // ---------------------------------------------------------------------------
  // The cache
  // ---------------------------------------------------------------------------

  /** The value stored under `CacheKey` and the expiry it was set with. */
  datatype Entry = Entry(text: string, ttlSeconds: int)

  /** Redis as the controller sees it: whether `ensureRedisConnected()`
      reports a connection, the entry under `CacheKey`, and whether commands
      throw. */
  datatype Redis = Redis(connected: bool, entry: Option<Entry>, failing: bool)

  /** `JSON.parse` followed by the controller's truthiness test: `None` for
      text that does not parse or parses to a falsy value. */
  type Decoder = string -> Option<seq<Movie>>

  /** `JSON.stringify`. */
  type Encoder = seq<Movie> -> string

  /** `_getMoviesFromCache`: nothing when not connected, when the command
      throws, when the key is absent or holds "" (falsy), or when the text
      does not decode; otherwise the decoded list. */
  function CachedMovies(redis: Redis, decode: Decoder): (r: Option<seq<Movie>>)
    ensures !redis.connected || redis.failing || redis.entry.None? ==> r.None?
    ensures redis.entry.Some? && redis.entry.value.text == "" ==> r.None?
    ensures r.Some? ==> decode(redis.entry.value.text) == r
  {
    if !redis.connected || redis.failing then None
    else match redis.entry
      case None => None
      case Some(e) => if e.text == "" then None else decode(e.text)
  }

  /** `_storeMoviesInCache`: a no-op when not connected or when the command
      throws (the error is swallowed); otherwise the key holds the encoded
      list with a one-day expiry. Nothing but the entry changes. */
  function StoreMovies(redis: Redis, movies: seq<Movie>, encode: Encoder): (r: Redis)
    ensures r.connected == redis.connected && r.failing == redis.failing
    ensures !redis.connected || redis.failing ==> r == redis
    ensures redis.connected && !redis.failing ==> r.entry == Some(Entry(encode(movies), 86400))
  {
    if !redis.connected || redis.failing then redis
    else redis.(entry := Some(Entry(encode(movies), CacheExpirationSeconds)))
  }

  // ---------------------------------------------------------------------------
  // Fetching
  // ---------------------------------------------------------------------------

  /** One date's records: the current extractor's for a 2xx page, `[]` for a
      failed request (network error, 30-second abort) or any other status. */
  function JsDateMovies(resp: Response): (r: seq<Movie>)
    ensures resp.Failed? || !IsOk(resp.status) ==> r == []
    ensures resp.Response? && IsOk(resp.status) ==> r == ParserJs.ParseFromDateHtml(resp.body)
  {
    match resp
    case Failed => []
    case Response(status, body) => if IsOk(status) then ParserJs.ParseFromDateHtml(body) else []
  }

  function FetchDate(fetch: string -> Response, date: string): seq<Movie> {
    JsDateMovies(fetch(DateUrl(date)))
  }

  /** The dates to fetch: today and the 29 days after it. */
  function Dates(today: Calendar.Date, time: string): (r: seq<string>)
    requires Calendar.Valid(today)
    ensures |r| == NumberOfDaysToFetch
  {
    Calendar.UpcomingDates(today, NumberOfDaysToFetch, time)
  }

  /** The fetch loop: one request per date in order, a pause of
      `DelayBetweenFetchesMs` before every request but the first, and
      exactly one entry pushed per date, `[]` when the date failed.
      `perDate` is the request and parse of one date (`FetchDate`). */
  method FetchSequentially(dates: seq<string>, perDate: string -> seq<Movie>)
    returns (moviesArrays: seq<seq<Movie>>, pauses: seq<int>)
    ensures moviesArrays == MapDates(dates, perDate)
    ensures |pauses| == |dates|
    ensures forall i :: 0 <= i < |dates| ==> pauses[i] == (if i == 0 then 0 else 1000)
  {
    moviesArrays := [];
    pauses := [];
    var i := 0;
    while i < |dates|
      invariant 0 <= i <= |dates|
      invariant |moviesArrays| == i && |pauses| == i
      invariant forall j :: 0 <= j < i ==> moviesArrays[j] == perDate(dates[j])
      invariant forall j :: 0 <= j < i ==> pauses[j] == (if j == 0 then 0 else 1000)
    {
      var pause := if i > 0 then DelayBetweenFetchesMs else 0;
      moviesArrays := moviesArrays + [perDate(dates[i])];
      pauses := pauses + [pause];
      i := i + 1;
    }
  }

  /** `_fetchAndParseMovies` as a value: the merge of every date's records,
      concatenated in date order. */
  function FreshMovies(today: Calendar.Date, time: string, fetch: string -> Response): (r: seq<Movie>)
    requires Calendar.Valid(today)
    ensures DistinctTitles(r)
  {
    MergeMovies(Flatten(MapDates(Dates(today, time), date => FetchDate(fetch, date))))
  }

  /** `_fetchAndParseMovies`: build the dates, fetch them one by one, flatten,
      and run the merge loop. */
  method FetchAndParseMovies(today: Calendar.Date, time: string, fetch: string -> Response)
    returns (movies: seq<Movie>)
    requires Calendar.Valid(today)
    ensures movies == FreshMovies(today, time, fetch)
    ensures DistinctTitles(movies)
  {
    var dates := Dates(today, time);
    var moviesArrays, pauses := FetchSequentially(dates, date => FetchDate(fetch, date));
    movies := MergeAll(Flatten(moviesArrays));
  }

  /** A date that fails leaves the result as if it had not been fetched. */
  lemma FailedDateIsSkipped(dates: seq<string>, fetch: string -> Response, i: nat)
    requires i < |dates|
    requires fetch(DateUrl(dates[i])).Failed? || !IsOk(fetch(DateUrl(dates[i])).status)
    ensures MergeMovies(Flatten(MapDates(dates, date => FetchDate(fetch, date))))
            == MergeMovies(Flatten(MapDates(dates[..i] + dates[i + 1..], date => FetchDate(fetch, date))))
  {
    FlattenSkipsEmpty(dates, date => FetchDate(fetch, date), i);
  }

  /** Within four-digit years, the dates fetched are today and the next 29
      calendar days, each once. */
  lemma DatesAreThirtyDays(today: Calendar.Date, time: string)
    requires Calendar.Valid(today)
    requires forall i :: 0 <= i < 30 ==> 0 <= Calendar.AddDays(today, i).year <= 9999
    ensures var r := Dates(today, time);
            && |r| == 30
            && (forall i :: 0 <= i < 30 ==>
                  r[i] == Calendar.IsoDate(Calendar.AddDays(today, i))
                  && Calendar.DayNumber(Calendar.AddDays(today, i)) == Calendar.DayNumber(today) + i)
            && (forall i, j :: 0 <= i < j < 30 ==> r[i] != r[j])
  {
    Calendar.UpcomingDatesConsecutive(today, 30, time);
  }

  // ---------------------------------------------------------------------------
  // Handlers
  // ---------------------------------------------------------------------------

  /** What a handler answers: a JSON list of movies, or an error status
      passed to the framework's error handler. */
  datatype Reply = Json(movies: seq<Movie>) | Status(code: int)

  /** A handler's answer, whether it fetched, and the cache afterwards. */
  datatype Served = Served(reply: Reply, fetched: bool, redis: Redis)

  /** `getCinemathequeMovies`: on a hit the cached list is answered and
      nothing is fetched or stored; on a miss the fresh list is answered and
      then stored, and a failed store does not change the answer. */
  function GetMovies(redis: Redis, decode: Decoder, encode: Encoder,
                     today: Calendar.Date, time: string, fetch: string -> Response): (r: Served)
    requires Calendar.Valid(today)
    ensures CachedMovies(redis, decode).Some? ==>
              r == Served(Json(CachedMovies(redis, decode).value), false, redis)
    ensures CachedMovies(redis, decode).None? ==>
              r.fetched && r.reply == Json(FreshMovies(today, time, fetch))
              && r.redis == StoreMovies(redis, FreshMovies(today, time, fetch), encode)
  {
    var cached := CachedMovies(redis, decode);
    if cached.Some? then Served(Json(cached.value), false, redis)
    else
      var latest := FreshMovies(today, time, fetch);
      Served(Json(latest), true, StoreMovies(redis, latest, encode))
  }

  /** `forceRefreshCinemathequeMovies`: always fetches, answers the fresh
      list, and stores it. */
  function ForceRefresh(redis: Redis, encode: Encoder,
                        today: Calendar.Date, time: string, fetch: string -> Response): (r: Served)
    requires Calendar.Valid(today)
    ensures r.fetched && r.reply == Json(FreshMovies(today, time, fetch))
    ensures r.redis == StoreMovies(redis, FreshMovies(today, time, fetch), encode)
  {
    var latest := FreshMovies(today, time, fetch);
    Served(Json(latest), true, StoreMovies(redis, latest, encode))
  }

  /** A miss followed by a second request on a working connection is a hit
      answering the same list without fetching, provided the codec reads
      back what it wrote and writes a non-empty text. */
  lemma MissThenHit(redis: Redis, decode: Decoder, encode: Encoder,
                    today: Calendar.Date, time: string, fetch: string -> Response)
    requires Calendar.Valid(today)
    requires redis.connected && !redis.failing
    requires CachedMovies(redis, decode).None?
    requires var latest := FreshMovies(today, time, fetch);
             encode(latest) != "" && decode(encode(latest)) == Some(latest)
    ensures var first := GetMovies(redis, decode, encode, today, time, fetch);
            var second := GetMovies(first.redis, decode, encode, today, time, fetch);
            && first.fetched && !second.fetched
            && second.reply == first.reply
  {
  }

  /** The answer to a miss is the same whether or not the store works. */
  lemma StoreOutcomeInvisible(r1: Redis, r2: Redis, decode: Decoder, encode: Encoder,
                              today: Calendar.Date, time: string, fetch: string -> Response)
    requires Calendar.Valid(today)
    requires CachedMovies(r1, decode).None? && CachedMovies(r2, decode).None?
    ensures GetMovies(r1, decode, encode, today, time, fetch).reply
            == GetMovies(r2, decode, encode, today, time, fetch).reply
  {
  }

  /** `deleteCache`: 503 when not connected; 500 when the command throws;
      otherwise the key is removed and the answer is 200 if something was
      deleted and 404 if not. */
  function DeleteCache(redis: Redis): (r: (Reply, Redis))
    ensures r.0 == Status(503) <==> !redis.connected
    ensures r.0 == Status(500) <==> redis.connected && redis.failing
    ensures r.0 == Status(200) <==> redis.connected && !redis.failing && redis.entry.Some?
    ensures r.0 == Status(404) <==> redis.connected && !redis.failing && redis.entry.None?
    ensures redis.connected && !redis.failing ==> r.1 == redis.(entry := None)
    ensures !redis.connected || redis.failing ==> r.1 == redis
  {
    if !redis.connected then (Status(503), redis)
    else if redis.failing then (Status(500), redis)
    else
      var deleted := if redis.entry.Some? then 1 else 0;
      (if deleted > 0 then Status(200) else Status(404), redis.(entry := None))
  }

  /** After a successful delete the next read is a miss, and deleting again
      answers 404. */
  lemma DeleteThenMiss(redis: Redis, decode: Decoder)
    requires redis.connected && !redis.failing
    ensures var after := DeleteCache(redis).1;
            && CachedMovies(after, decode).None?
            && DeleteCache(after).0 == Status(404)
  {
  }
}
