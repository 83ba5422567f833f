/** `BatchedFetcher`: the configuration merge, the split of the date list into
    fixed-size batches, the per-batch start delay (with `Math.random()` given
    as a parameter), the global request index, failure-to-empty per date, and
    the merge of everything fetched. Batches run concurrently, but
    `Promise.all` keeps results in batch and date order, so only that order is
    modelled. */
module BatchedFetcher {
  import opened Wrappers
  import opened Model
  import opened Merge
  import opened Dom
  import opened Fetch
  import ParserTs

  // ---------------------------------------------------------------------------
  // Configuration
  // ---------------------------------------------------------------------------

  datatype Config = Config(batchSize: int, minBatchDelayMs: int, maxBatchDelayMs: int, fetchTimeoutMs: int)

  const DefaultConfig: Config := Config(5, 500, 2000, 30000)

  /** The constructor's `Partial<BatchedFetcherConfig>`: absent fields are
      not given. */
  datatype PartialConfig = PartialConfig(
    batchSize: Option<int>,
    minBatchDelayMs: Option<int>,
    maxBatchDelayMs: Option<int>,
    fetchTimeoutMs: Option<int>)

  const NoOverrides: PartialConfig := PartialConfig(None, None, None, None)

  /** A partial configuration giving every field of `c`. */
  function Given(c: Config): PartialConfig {
    PartialConfig(Some(c.batchSize), Some(c.minBatchDelayMs), Some(c.maxBatchDelayMs), Some(c.fetchTimeoutMs))
  }

  /** `{ ...DEFAULT_FETCHER_CONFIG, ...config }`: each given field overrides
      the default of the same name; every other field keeps its default. */
  function MergeConfig(p: PartialConfig): (c: Config)
    ensures p.batchSize.Some? ==> c.batchSize == p.batchSize.value
    ensures p.batchSize.None? ==> c.batchSize == 5
    ensures p.minBatchDelayMs.Some? ==> c.minBatchDelayMs == p.minBatchDelayMs.value
    ensures p.minBatchDelayMs.None? ==> c.minBatchDelayMs == 500
    ensures p.maxBatchDelayMs.Some? ==> c.maxBatchDelayMs == p.maxBatchDelayMs.value
    ensures p.maxBatchDelayMs.None? ==> c.maxBatchDelayMs == 2000
    ensures p.fetchTimeoutMs.Some? ==> c.fetchTimeoutMs == p.fetchTimeoutMs.value
    ensures p.fetchTimeoutMs.None? ==> c.fetchTimeoutMs == 30000
  {
    Config(
      p.batchSize.GetOr(DefaultConfig.batchSize),
      p.minBatchDelayMs.GetOr(DefaultConfig.minBatchDelayMs),
      p.maxBatchDelayMs.GetOr(DefaultConfig.maxBatchDelayMs),
      p.fetchTimeoutMs.GetOr(DefaultConfig.fetchTimeoutMs))
  }

  /** No overrides give the defaults; a full set of overrides gives exactly
      those values; merging is idempotent. */
  lemma MergeConfigLaws(c: Config, p: PartialConfig)
    ensures MergeConfig(NoOverrides) == DefaultConfig
    ensures MergeConfig(Given(c)) == c
    ensures MergeConfig(Given(MergeConfig(p))) == MergeConfig(p)
  {
  }

  // ---------------------------------------------------------------------------
  // Batches
  // ---------------------------------------------------------------------------

  function Min(a: int, b: int): int {
    if a <= b then a else b
  }

  /** The dates cut into consecutive batches of `size`, the last one possibly
      shorter. */
  function Batches(dates: seq<string>, size: int): seq<seq<string>>
    requires size >= 1
    decreases |dates|
  {
    if |dates| == 0 then []
    else if |dates| <= size then [dates]
    else [dates[..size]] + Batches(dates[size..], size)
  }

  /** The batches put back together give the dates; each holds one to
      `size` dates, and all but the last hold exactly `size`. */
  lemma {:induction false} BatchesShape(dates: seq<string>, size: int)
    requires size >= 1
    ensures var r := Batches(dates, size);
            && Flatten(r) == dates
            && (forall b :: 0 <= b < |r| ==> 1 <= |r[b]| <= size)
            && (forall b :: 0 <= b < |r| - 1 ==> |r[b]| == size)
    decreases |dates|
  {
    var r := Batches(dates, size);
    if |dates| == 0 {
    } else if |dates| <= size {
      assert r == [dates];
      assert Flatten(r) == dates + Flatten<string>([]);
    } else {
      var rest := Batches(dates[size..], size);
      BatchesShape(dates[size..], size);
      assert r == [dates[..size]] + rest;
      assert r[1..] == rest;
      assert Flatten(r) == dates[..size] + Flatten(rest);
      assert dates == dates[..size] + dates[size..];
      forall b | 1 <= b < |r| ensures r[b] == rest[b - 1] {
      }
    }
  }

  /** The first batch of a non-empty list and what remains after it. */
  lemma BatchesStep(dates: seq<string>, size: int)
    requires size >= 1 && |dates| > 0
    ensures Batches(dates, size) == [dates[..Min(size, |dates|)]] + Batches(dates[Min(size, |dates|)..], size)
  {
    if |dates| <= size {
      assert dates[..|dates|] == dates;
    }
  }

  /** Batch `b` is the slice of the input from `b * size`, clamped at the
      end of the list. */
  lemma BatchAt(dates: seq<string>, size: int, b: nat)
    requires size >= 1 && b < |Batches(dates, size)|
    ensures b * size < |dates|
    ensures Batches(dates, size)[b] == dates[b * size .. Min(b * size + size, |dates|)]
  {
    OffsetIsProduct(b, size);
    BatchFrom(dates, size, b);
  }

  /** The start of batch `b`, counted batch by batch. */
  function Offset(b: nat, size: nat): nat {
    if b == 0 then 0 else Offset(b - 1, size) + size
  }

  lemma {:induction false} OffsetIsProduct(b: nat, size: nat)
    ensures Offset(b, size) == b * size
  {
    if b > 0 {
      OffsetIsProduct(b - 1, size);
      MulStep(b, size);
    }
  }

  /** `BatchAt` with the start offset counted rather than multiplied, so
      that the induction step stays linear. */
  lemma {:induction false} BatchFrom(dates: seq<string>, size: int, b: nat)
    requires size >= 1 && b < |Batches(dates, size)|
    ensures Offset(b, size) < |dates|
    ensures Batches(dates, size)[b] == dates[Offset(b, size) .. Min(Offset(b, size) + size, |dates|)]
    decreases |dates|
  {
    BatchesStep(dates, size);
    if b > 0 {
      BatchesFew(dates, size);
      var rest := dates[size..];
      assert Batches(dates, size)[b] == Batches(rest, size)[b - 1];
      BatchFrom(rest, size, b - 1);
      var k := Offset(b - 1, size);
      var hi := Min(k + size, |rest|);
      assert hi + size == Min(Offset(b, size) + size, |dates|);
      ShiftedSlice(dates, size, k, hi);
    }
  }

  /** A list no longer than one batch makes at most one batch. */
  lemma BatchesFew(dates: seq<string>, size: int)
    requires size >= 1
    ensures |dates| <= size ==> |Batches(dates, size)| <= 1
  {
    if 0 < |dates| <= size {
      assert Batches(dates, size) == [dates];
    }
  }

  /** Every batch as a slice of the input. */
  lemma BatchesAt(dates: seq<string>, size: int)
    requires size >= 1
    ensures var r := Batches(dates, size);
            forall b :: 0 <= b < |r| ==> b * size < |dates| && r[b] == dates[b * size .. Min(b * size + size, |dates|)]
  {
    var r := Batches(dates, size);
    forall b | 0 <= b < |r|
      ensures b * size < |dates| && r[b] == dates[b * size .. Min(b * size + size, |dates|)]
    {
      BatchAt(dates, size, b);
    }
  }

  /** One iteration of the split loop: the batch at `i` and the rest. */
  lemma SplitStep(dates: seq<string>, i: nat, size: int)
    requires size >= 1 && i < |dates|
    ensures Batches(dates[i..], size)
            == [dates[i .. Min(i + size, |dates|)]] + Batches(dates[Min(i + size, |dates|)..], size)
  {
    var tail := dates[i..];
    BatchesStep(tail, size);
    var m := Min(size, |tail|);
    assert i + m == Min(i + size, |dates|);
    assert tail[..m] == dates[i .. i + m];
    assert tail[m..] == dates[i + m..];
  }

  lemma MulStep(b: int, size: int)
    ensures b * size == (b - 1) * size + size
  {
  }

  lemma ShiftedSlice(dates: seq<string>, size: nat, lo: nat, hi: nat)
    requires size <= |dates| && lo <= hi <= |dates| - size
    ensures dates[size..][lo..hi] == dates[lo + size .. hi + size]
  {
  }

  /** The number of batches is the ceiling of `|dates| / size`: none for no
      dates, otherwise the least count whose capacity holds them all. */
  lemma {:induction false} BatchCount(dates: seq<string>, size: int)
    requires size >= 1
    ensures var n := |Batches(dates, size)|;
            && (n == 0 <==> |dates| == 0)
            && (n > 0 ==> (n - 1) * size < |dates| <= n * size)
    decreases |dates|
  {
    if |dates| > size {
      BatchCount(dates[size..], size);
      var n := |Batches(dates[size..], size)|;
      MulStep(n + 1, size);
    }
  }

  /** The sample split: twelve dates in batches of five give 5, 5 and 2. */
  lemma TwelveInFives(dates: seq<string>)
    requires |dates| == 12
    ensures var r := Batches(dates, 5);
            |r| == 3 && |r[0]| == 5 && |r[1]| == 5 && |r[2]| == 2
  {
    BatchCount(dates, 5);
    BatchAt(dates, 5, 2);
  }

  /** `_splitIntoBatches`: `dates.slice(i, i + size)` for `i = 0, size,
      2 * size, ...` while `i < dates.length`. A size below one makes the
      source loop forever, so it is excluded here. */
  method SplitIntoBatches(dates: seq<string>, size: int) returns (batches: seq<seq<string>>)
    requires size >= 1
    ensures Flatten(batches) == dates
    ensures forall b :: 0 <= b < |batches| ==> 1 <= |batches[b]| <= size
    ensures forall b :: 0 <= b < |batches| - 1 ==> |batches[b]| == size
    ensures |dates| > 0 ==> (|batches| - 1) * size < |dates| <= |batches| * size
    ensures forall b :: 0 <= b < |batches| ==>
              b * size < |dates| && batches[b] == dates[b * size .. Min(b * size + size, |dates|)]
  {
    batches := [];
    var i := 0;
    assert dates[Min(i, |dates|)..] == dates;
    while i < |dates|
      invariant 0 <= i
      invariant SplitSoFar(dates, size, batches, i)
      decreases |dates| - i
    {
      SplitAdvance(dates, size, batches, i);
      batches := batches + [dates[i .. Min(i + size, |dates|)]];
      i := i + size;
    }
    SplitDone(dates, size, batches, i);
  }

  /** The split loop's invariant: the batches pushed so far followed by the
      batches of what is left make up all the batches. */
  predicate SplitSoFar(dates: seq<string>, size: int, batches: seq<seq<string>>, i: nat)
    requires size >= 1
  {
    batches + Batches(dates[Min(i, |dates|)..], size) == Batches(dates, size)
  }

  lemma SplitAdvance(dates: seq<string>, size: int, batches: seq<seq<string>>, i: nat)
    requires size >= 1 && i < |dates| && SplitSoFar(dates, size, batches, i)
    ensures SplitSoFar(dates, size, batches + [dates[i .. Min(i + size, |dates|)]], i + size)
  {
    var next := Min(i + size, |dates|);
    SplitStep(dates, i, size);
    assert Min(i + size, |dates|) == next;
    var x := [dates[i .. next]];
    var rest := Batches(dates[next..], size);
    assert batches + (x + rest) == (batches + x) + rest;
  }

  lemma SplitDone(dates: seq<string>, size: int, batches: seq<seq<string>>, i: nat)
    requires size >= 1 && |dates| <= i && SplitSoFar(dates, size, batches, i)
    ensures Flatten(batches) == dates
    ensures forall b :: 0 <= b < |batches| ==> 1 <= |batches[b]| <= size
    ensures forall b :: 0 <= b < |batches| - 1 ==> |batches[b]| == size
    ensures |dates| > 0 ==> (|batches| - 1) * size < |dates| <= |batches| * size
    ensures forall b :: 0 <= b < |batches| ==>
              b * size < |dates| && batches[b] == dates[b * size .. Min(b * size + size, |dates|)]
  {
    assert dates[Min(i, |dates|)..] == [];
    assert batches == Batches(dates, size);
    BatchesShape(dates, size);
    BatchCount(dates, size);
    BatchesAt(dates, size);
  }

  // ---------------------------------------------------------------------------
  // Delay and request index
  // ---------------------------------------------------------------------------

  /** The start delay of batch `batchIndex`, with `random` standing for
      `Math.random()`: none for the first batch, otherwise
      `random * (max - min) + min`. */
  function BatchDelay(batchIndex: nat, cfg: Config, random: real): (d: real)
    requires 0.0 <= random < 1.0
    ensures batchIndex == 0 ==> d == 0.0
    ensures batchIndex > 0 && cfg.minBatchDelayMs < cfg.maxBatchDelayMs ==>
              cfg.minBatchDelayMs as real <= d < cfg.maxBatchDelayMs as real
    ensures batchIndex > 0 && cfg.minBatchDelayMs == cfg.maxBatchDelayMs ==> d == cfg.minBatchDelayMs as real
    ensures batchIndex > 0 && cfg.maxBatchDelayMs < cfg.minBatchDelayMs ==>
              cfg.maxBatchDelayMs as real < d <= cfg.minBatchDelayMs as real
  {
    if batchIndex == 0 then 0.0
    else
      ScaledDelay(random, cfg.minBatchDelayMs, cfg.maxBatchDelayMs);
      random * (cfg.maxBatchDelayMs - cfg.minBatchDelayMs) as real + cfg.minBatchDelayMs as real
  }

  /** A fraction in [0, 1) of the way from `lo` to `hi` reaches `lo` but
      not `hi`, whichever way round they are. */
  lemma ScaledDelay(random: real, lo: int, hi: int)
    requires 0.0 <= random < 1.0
    ensures var d := random * (hi - lo) as real + lo as real;
            && (lo < hi ==> lo as real <= d < hi as real)
            && (lo == hi ==> d == lo as real)
            && (hi < lo ==> hi as real < d <= lo as real)
  {
    var span := (hi - lo) as real;
    assert span == hi as real - lo as real;
    if span > 0.0 {
      assert 0.0 <= random * span;
      assert (1.0 - random) * span > 0.0;
    } else if span < 0.0 {
      assert random * span <= 0.0;
      assert (1.0 - random) * span < 0.0;
    }
  }

  /** Only a positive delay is waited for (`if (delay > 0)`). */
  predicate Waits(delay: real) {
    delay > 0.0
  }

  /** With the default configuration every batch but the first waits between
      half a second and two seconds before it starts. */
  lemma DefaultDelays(batchIndex: nat, random: real)
    requires 0.0 <= random < 1.0
    ensures Waits(BatchDelay(batchIndex, DefaultConfig, random)) <==> batchIndex > 0
    ensures batchIndex > 0 ==> 500.0 <= BatchDelay(batchIndex, DefaultConfig, random) < 2000.0
  {
  }

  /** The 1-based index logged for request `index` of batch `batchIndex`. */
  function RequestIndex(batchIndex: nat, index: nat, size: int): int {
    batchIndex * size + index + 1
  }

  /** The request index is the date's 1-based position in the full list. */
  lemma RequestIndexIsPosition(dates: seq<string>, size: int, b: nat, j: nat)
    requires size >= 1 && b < |Batches(dates, size)| && j < |Batches(dates, size)[b]|
    ensures 1 <= RequestIndex(b, j, size) <= |dates|
    ensures dates[RequestIndex(b, j, size) - 1] == Batches(dates, size)[b][j]
  {
    BatchAt(dates, size, b);
  }

  // ---------------------------------------------------------------------------
  // Fetching and merging
  // ---------------------------------------------------------------------------

  /** `_fetchSingleDate` after the request: the older extractor's records
      for a 2xx page, and `[]` for a failed request or any other status. */
  function DateMovies(resp: Response): (r: seq<Movie>)
    ensures resp.Failed? ==> r == []
    ensures resp.Response? && !IsOk(resp.status) ==> r == []
    ensures resp.Response? && IsOk(resp.status) ==> |r| == |resp.body.grids|
  {
    match resp
    case Failed => []
    case Response(status, body) => if IsOk(status) then ParserTs.TsParseFromDateHtml(body) else []
  }

  /** The records fetched for one date, `fetch` standing for the network. */
  function FetchSingleDate(fetch: string -> Response, date: string): seq<Movie> {
    DateMovies(fetch(DateUrl(date)))
  }

  /** `_processBatch`: the batch's dates fetched and their lists concatenated
      in batch order. */
  function ProcessBatch(batch: seq<string>, fetch: string -> Response): seq<Movie> {
    Flatten(MapDates(batch, date => FetchSingleDate(fetch, date)))
  }

  /** The concatenated results of a list of batches, in batch order. */
  function AllBatches(batches: seq<seq<string>>, fetch: string -> Response): seq<Movie>
    decreases |batches|
  {
    if |batches| == 0 then [] else ProcessBatch(batches[0], fetch) + AllBatches(batches[1..], fetch)
  }

  /** Whatever the batching, the concatenation is the per-date lists
      flattened in date order. */
  lemma {:induction false} AllBatchesInDateOrder(batches: seq<seq<string>>, fetch: string -> Response)
    ensures AllBatches(batches, fetch) == Flatten(MapDates(Flatten(batches), date => FetchSingleDate(fetch, date)))
    decreases |batches|
  {
    var g := date => FetchSingleDate(fetch, date);
    if |batches| == 0 {
      assert Flatten(batches) == [];
      assert MapDates([], g) == [];
    } else {
      AllBatchesInDateOrder(batches[1..], fetch);
      MapDatesAppend(batches[0], Flatten(batches[1..]), g);
      FlattenAppend(MapDates(batches[0], g), MapDates(Flatten(batches[1..]), g));
    }
  }

  /** `fetchMoviesForDates`: batch, fetch, concatenate in order, merge. The
      result is the merge of the per-date lists in date order, whatever the
      batch size: one record per title found on any page. */
  function FetchMoviesForDates(dates: seq<string>, cfg: Config, fetch: string -> Response): (r: seq<Movie>)
    requires cfg.batchSize >= 1
    ensures r == MergeMovies(Flatten(MapDates(dates, date => FetchSingleDate(fetch, date))))
    ensures DistinctTitles(r)
  {
    var batches := Batches(dates, cfg.batchSize);
    BatchesShape(dates, cfg.batchSize);
    AllBatchesInDateOrder(batches, fetch);
    MergeMovies(AllBatches(batches, fetch))
  }

  /** The batch size changes the schedule, never the result. */
  lemma BatchSizeIrrelevant(dates: seq<string>, c1: Config, c2: Config, fetch: string -> Response)
    requires c1.batchSize >= 1 && c2.batchSize >= 1
    ensures FetchMoviesForDates(dates, c1, fetch) == FetchMoviesForDates(dates, c2, fetch)
  {
  }

  /** A date whose request fails, or answers with a non-2xx status, leaves
      the result as if the date had not been asked for. */
  lemma FailedDateIsSkipped(dates: seq<string>, cfg: Config, fetch: string -> Response, i: nat)
    requires cfg.batchSize >= 1 && i < |dates|
    requires fetch(DateUrl(dates[i])).Failed? || !IsOk(fetch(DateUrl(dates[i])).status)
    ensures FetchMoviesForDates(dates, cfg, fetch) == FetchMoviesForDates(dates[..i] + dates[i + 1..], cfg, fetch)
  {
    FlattenSkipsEmpty(dates, date => FetchSingleDate(fetch, date), i);
  }

  /** When every request fails the result is empty. */
  lemma AllFailed(dates: seq<string>, cfg: Config, fetch: string -> Response)
    requires cfg.batchSize >= 1
    requires forall d :: fetch(DateUrl(d)).Failed?
    ensures FetchMoviesForDates(dates, cfg, fetch) == []
  {
    var g := date => FetchSingleDate(fetch, date);
    var i := 0;
    while i < |dates|
      invariant 0 <= i <= |dates|
      invariant Flatten(MapDates(dates[..i], g)) == []
    {
      MapDatesAppend(dates[..i], [dates[i]], g);
      FlattenAppend(MapDates(dates[..i], g), MapDates([dates[i]], g));
      assert dates[..i + 1] == dates[..i] + [dates[i]];
      i := i + 1;
    }
    assert dates[..i] == dates;
  }
}
