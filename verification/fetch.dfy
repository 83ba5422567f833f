/** What the fetching code around the extractors shares: the outcome of one
    HTTP request for a date page, the page URL, and the per-date result lists
    that are concatenated in date order before merging. The HTTP client and
    the HTML parser are not modelled: a successful response carries the
    already-parsed page. */
module Fetch {
  import opened Model
  import opened Dom

  /** One request's outcome: a response with its status and parsed body, or
      a failure before any response (network error, timeout abort, body read
      error). */
  datatype Response = Response(status: int, body: Page) | Failed

  /** `response.ok`: a 2xx status. */
  predicate IsOk(status: int) {
    200 <= status <= 299
  }

  const PageBase: string := "https://www.cinema.co.il/shown/?date="

  /** The date page requested for `date`. */
  function DateUrl(date: string): (u: string)
    ensures |u| == |PageBase| + |date| && u[..|PageBase|] == PageBase && u[|PageBase|..] == date
  {
    PageBase + date
  }

  /** Distinct dates are requested at distinct URLs. */
  lemma DateUrlInjective(a: string, b: string)
    requires DateUrl(a) == DateUrl(b)
    ensures a == b
  {
    assert a == DateUrl(a)[|PageBase|..];
  }

  /** `arrays.flat()`: the lists concatenated in order. */
  function Flatten<T>(xs: seq<seq<T>>): (r: seq<T>)
    ensures xs == [] ==> r == []
    decreases |xs|
  {
    if |xs| == 0 then [] else xs[0] + Flatten(xs[1..])
  }

  lemma {:induction false} FlattenAppend<T>(a: seq<seq<T>>, b: seq<seq<T>>)
    ensures Flatten(a + b) == Flatten(a) + Flatten(b)
    decreases |a|
  {
    if |a| == 0 {
      assert a + b == b;
    } else {
      assert (a + b)[1..] == a[1..] + b;
      FlattenAppend(a[1..], b);
    }
  }

  /** The result list of every date, in date order (`dates.map(...)` awaited
      with `Promise.all`, or a loop pushing one entry per date). */
  function MapDates(dates: seq<string>, perDate: string -> seq<Movie>): (r: seq<seq<Movie>>)
    ensures |r| == |dates|
    ensures forall i :: 0 <= i < |dates| ==> r[i] == perDate(dates[i])
  {
    seq(|dates|, i requires 0 <= i < |dates| => perDate(dates[i]))
  }

  lemma MapDatesAppend(a: seq<string>, b: seq<string>, perDate: string -> seq<Movie>)
    ensures MapDates(a + b, perDate) == MapDates(a, perDate) + MapDates(b, perDate)
  {
  }

  /** A date whose result is empty contributes nothing to the concatenation:
      dropping it gives the same list. */
  lemma FlattenSkipsEmpty(dates: seq<string>, perDate: string -> seq<Movie>, i: nat)
    requires i < |dates| && perDate(dates[i]) == []
    ensures Flatten(MapDates(dates, perDate)) == Flatten(MapDates(dates[..i] + dates[i + 1..], perDate))
  {
    var a, b := MapDates(dates[..i], perDate), MapDates(dates[i + 1..], perDate);
    var e: seq<seq<Movie>> := [[]];
    assert dates == dates[..i] + [dates[i]] + dates[i + 1..];
    MapDatesAppend(dates[..i] + [dates[i]], dates[i + 1..], perDate);
    MapDatesAppend(dates[..i], [dates[i]], perDate);
    MapDatesAppend(dates[..i], dates[i + 1..], perDate);
    assert MapDates([dates[i]], perDate) == e;
    assert MapDates(dates, perDate) == a + e + b;
    FlattenAppend(a + e, b);
    FlattenAppend(a, e);
    FlattenAppend(a, b);
    assert Flatten(e) == [] + Flatten(e[1..]);
  }
}
