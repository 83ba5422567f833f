/** The TypeScript controller (`MovieController.ts`): no cache, the 30-date
    list, one request per date awaited together (`Promise.all` keeps date
    order), an empty list for a date whose request or parse throws, and the
    merge loop. It loads the older extractor and, unlike the fetcher and the
    compiled controller, never looks at the response status. */
module ControllerTs {
  import opened Wrappers
  import opened Model
  import opened Merge
  import opened Dom
  import opened Fetch
  import Calendar
  import ParserTs
  import BatchedFetcher

  const NumberOfDays: nat := 30

  /** One date's records: `[]` when the request fails, otherwise the older
      extractor's records for whatever page came back, error pages
      included. */
  function TsDateMovies(resp: Response): (r: seq<Movie>)
    ensures resp.Failed? ==> r == []
    ensures resp.Response? ==> |r| == |resp.body.grids|
  {
    match resp
    case Failed => []
    case Response(_, body) => ParserTs.TsParseFromDateHtml(body)
  }

  function FetchDate(fetch: string -> Response, date: string): seq<Movie> {
    TsDateMovies(fetch(DateUrl(date)))
  }

  /** The merged list `getCinemathequeMovies` answers with: the per-date
      lists of today and the next 29 days, concatenated in date order and
      merged. */
  function GetMovies(today: Calendar.Date, time: string, fetch: string -> Response): (r: seq<Movie>)
    requires Calendar.Valid(today)
    ensures DistinctTitles(r)
    ensures TitleSet(r) == TitleSet(Flatten(MapDates(Calendar.UpcomingDates(today, NumberOfDays, time),
                                                      date => FetchDate(fetch, date))))
  {
    MergeMovies(Flatten(MapDates(Calendar.UpcomingDates(today, NumberOfDays, time), date => FetchDate(fetch, date))))
  }

  /** A date whose request fails leaves the answer as if it had not been
      fetched. */
  lemma FailedDateIsSkipped(dates: seq<string>, fetch: string -> Response, i: nat)
    requires i < |dates| && fetch(DateUrl(dates[i])).Failed?
    ensures MergeMovies(Flatten(MapDates(dates, date => FetchDate(fetch, date))))
            == MergeMovies(Flatten(MapDates(dates[..i] + dates[i + 1..], date => FetchDate(fetch, date))))
  {
    FlattenSkipsEmpty(dates, date => FetchDate(fetch, date), i);
  }

  /** Where no response has a non-2xx status, the answer is what the batched
      fetcher computes for the same dates, at any batch size. */
  lemma AgreesWithFetcher(today: Calendar.Date, time: string, fetch: string -> Response, cfg: BatchedFetcher.Config)
    requires Calendar.Valid(today) && cfg.batchSize >= 1
    requires forall u :: fetch(u).Response? ==> IsOk(fetch(u).status)
    ensures GetMovies(today, time, fetch)
            == BatchedFetcher.FetchMoviesForDates(Calendar.UpcomingDates(today, NumberOfDays, time), cfg, fetch)
  {
    var dates := Calendar.UpcomingDates(today, NumberOfDays, time);
    assert MapDates(dates, date => FetchDate(fetch, date))
        == MapDates(dates, date => BatchedFetcher.FetchSingleDate(fetch, date));
  }

  /** An error page is parsed like any other: a 404 answer whose body has
      grid containers yields records here, and none in the batched fetcher. */
  lemma ErrorPageIsParsed(body: Page)
    requires |body.grids| > 0
    ensures |TsDateMovies(Response(404, body))| == |body.grids|
    ensures BatchedFetcher.DateMovies(Response(404, body)) == []
  {
  }
}
