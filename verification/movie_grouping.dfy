/** `groupMoviesByDate` (`utils/movies.ts`): every screening of every movie
    is filed under its date; within a date, under the first copy of its
    movie's title; each date keeps whether it is a Friday or Saturday and
    whether all its screenings are before evening; finally each date's
    movies are sorted by their earliest screening time.

    The model reads each screening once into a `Slot` (movie, screening,
    date part, time part). A screening without a time part makes the
    evening test throw, which aborts the whole call, so the call is an error
    exactly when some screening lacks a time part, and otherwise the
    grouping runs over the slots. */
module MovieGrouping {
  import opened Wrappers
  import opened JsNumber
  import opened Model
  import opened Merge
  import opened DateTimeUtils
  import opened MovieUtils
  import Calendar

  /** One screening as the loop reads it: the movie, the screening, its
      date and time parts, whether that date is a weekend day and whether
      that time is before evening. */
  datatype Slot = Slot(movie: Movie, screening: Screening, date: string, time: string, weekend: bool, evening: bool)

  /** One date's entry of `MoviesByDate`. */
  datatype Group = Group(date: string, movies: seq<Movie>, isWeekend: bool, isMorningOnly: bool)

  // ---------------------------------------------------------------------------
  // Reading the screenings
  // ---------------------------------------------------------------------------

  predicate Timed(m: Movie) {
    forall j :: 0 <= j < |m.screenings| ==> TimePart(m.screenings[j].dateTime).Some?
  }

  predicate AllTimed(ms: seq<Movie>) {
    forall i :: 0 <= i < |ms| ==> Timed(ms[i])
  }

  function SlotsOf(m: Movie): (r: seq<Slot>)
    requires Timed(m)
    ensures |r| == |m.screenings|
    ensures forall j :: 0 <= j < |r| ==>
              && r[j].movie == m && r[j].screening == m.screenings[j]
              && r[j].date == DatePart(m.screenings[j].dateTime)
              && Some(r[j].time) == TimePart(m.screenings[j].dateTime)
  {
    seq(|m.screenings|, j requires 0 <= j < |m.screenings| => SlotOf(m, m.screenings[j]))
  }

  function SlotOf(m: Movie, s: Screening): Slot
    requires TimePart(s.dateTime).Some?
  {
    var date, time := DatePart(s.dateTime), TimePart(s.dateTime).value;
    Slot(m, s, date, time, IsWeekend(date), IsBeforeEvening(time))
  }

  /** Every slot's flags are those of its own date and time. */
  predicate WellRead(xs: seq<Slot>) {
    forall k :: 0 <= k < |xs| ==>
      && TimePart(xs[k].screening.dateTime) == Some(xs[k].time)
      && xs[k].weekend == IsWeekend(xs[k].date) && xs[k].evening == IsBeforeEvening(xs[k].time)
  }

  lemma {:induction false} AllSlotsWellRead(ms: seq<Movie>)
    requires AllTimed(ms)
    ensures WellRead(AllSlots(ms))
    decreases |ms|
  {
    if |ms| > 0 {
      var init := ms[..|ms| - 1];
      assert AllTimed(init) by {
        assert forall i :: 0 <= i < |init| ==> init[i] == ms[i];
      }
      AllSlotsWellRead(init);
      var a, b := AllSlots(init), SlotsOf(ms[|ms| - 1]);
      assert WellRead(b);
      assert forall k :: 0 <= k < |a| ==> (a + b)[k] == a[k];
      assert forall k :: 0 <= k < |b| ==> (a + b)[|a| + k] == b[k];
    }
  }

  /** The screenings in the order the two nested `forEach` loops visit them. */
  function AllSlots(ms: seq<Movie>): seq<Slot>
    requires AllTimed(ms)
    decreases |ms|
  {
    if |ms| == 0 then [] else AllSlots(ms[..|ms| - 1]) + SlotsOf(ms[|ms| - 1])
  }

  function SlotDates(xs: seq<Slot>): set<string> {
    set k | 0 <= k < |xs| :: xs[k].date
  }

  lemma SlotDatesAppend(a: seq<Slot>, b: seq<Slot>)
    ensures SlotDates(a + b) == SlotDates(a) + SlotDates(b)
  {
    var ab := a + b;
    forall d | d in SlotDates(ab) ensures d in SlotDates(a) + SlotDates(b) {
      var k :| 0 <= k < |ab| && ab[k].date == d;
      if k < |a| { assert ab[k] == a[k]; } else { assert ab[k] == b[k - |a|]; }
    }
    forall d | d in SlotDates(a) + SlotDates(b) ensures d in SlotDates(ab) {
      if d in SlotDates(a) {
        var k :| 0 <= k < |a| && a[k].date == d;
        assert ab[k] == a[k];
      } else {
        var k :| 0 <= k < |b| && b[k].date == d;
        assert ab[|a| + k] == b[k];
      }
    }
  }

  lemma SlotDatesOfMovie(m: Movie)
    requires Timed(m)
    ensures SlotDates(SlotsOf(m)) == DatesOf(m.screenings)
  {
    DatesOfSpec(m.screenings);
    var xs := SlotsOf(m);
    forall d | d in DatesOf(m.screenings) ensures d in SlotDates(xs) {
      var j :| 0 <= j < |m.screenings| && DatePart(m.screenings[j].dateTime) == d;
      assert xs[j].date == d;
    }
  }

  /** The slot dates are the dates `getAllDatesFromMovies` collects. */
  lemma {:induction false} SlotDatesAreAllDates(ms: seq<Movie>)
    requires AllTimed(ms)
    ensures SlotDates(AllSlots(ms)) == GetAllDatesFromMovies(ms)
    decreases |ms|
  {
    if |ms| > 0 {
      var init, m := ms[..|ms| - 1], ms[|ms| - 1];
      assert AllTimed(init) by {
        assert forall i :: 0 <= i < |init| ==> init[i] == ms[i];
      }
      SlotDatesAreAllDates(init);
      SlotDatesAppend(AllSlots(init), SlotsOf(m));
      SlotDatesOfMovie(m);
    }
  }

  /** The call throws exactly when some screening has no time part. */
  lemma TimedIffNoMissingTime(ms: seq<Movie>)
    ensures AllTimed(ms) <==> !exists i, j :: 0 <= i < |ms| && 0 <= j < |ms[i].screenings| && ' ' !in ms[i].screenings[j].dateTime
  {
  }

  // ---------------------------------------------------------------------------
  // The grouping loop
  // ---------------------------------------------------------------------------

  /** `dayOfWeek === 5 || dayOfWeek === 6` for `new Date(year, month - 1, day)`;
      an Invalid Date's NaN weekday is neither. */
  predicate IsWeekend(date: string) {
    var w := WeekDayOf(date);
    w == Some(5) || w == Some(6)
  }

  /** Within a date: the screening joins the first movie with its title, or
      starts a copy of its movie holding only this screening. */
  function AddToDate(ms: seq<Movie>, x: Slot): seq<Movie> {
    match IndexOfTitle(ms, x.movie.title)
    case Some(k) => ms[k := ms[k].(screenings := ms[k].screenings + [x.screening])]
    case None => ms + [x.movie.(screenings := [x.screening])]
  }

  /** The screening's own effect on its date's entry. */
  function Extend(g: Group, x: Slot): Group {
    g.(movies := AddToDate(g.movies, x), isMorningOnly := g.isMorningOnly && x.evening)
  }

  function IndexOfDate(gs: seq<Group>, d: string): (r: Option<nat>)
    ensures r.Some? ==> r.value < |gs| && gs[r.value].date == d
    ensures r.None? <==> forall i :: 0 <= i < |gs| ==> gs[i].date != d
    decreases |gs|
  {
    if |gs| == 0 then None
    else if gs[0].date == d then Some(0)
    else match IndexOfDate(gs[1..], d)
      case Some(i) => Some(i + 1)
      case None => None
  }

  /** One pass of the inner loop: the date's entry is created on first sight
      (weekend flag from that date, morning-only true) and then extended. */
  function Place(gs: seq<Group>, x: Slot): seq<Group> {
    match IndexOfDate(gs, x.date)
    case Some(i) => gs[i := Extend(gs[i], x)]
    case None => gs + [Extend(Group(x.date, [], x.weekend, true), x)]
  }

  /** The `grouped` object after the given slots, in key-insertion order. */
  function Collect(xs: seq<Slot>): seq<Group>
    decreases |xs|
  {
    if |xs| == 0 then [] else Place(Collect(xs[..|xs| - 1]), xs[|xs| - 1])
  }

  // ---------------------------------------------------------------------------
  // What each date's entry should hold
  // ---------------------------------------------------------------------------

  /** The slots on date `d`, in visiting order. */
  function OnDate(xs: seq<Slot>, d: string): seq<Slot>
    decreases |xs|
  {
    if |xs| == 0 then []
    else OnDate(xs[..|xs| - 1], d) + (if xs[|xs| - 1].date == d then [xs[|xs| - 1]] else [])
  }

  /** The per-title gathering of the slots of one date. */
  function ByTitle(ys: seq<Slot>): seq<Movie>
    decreases |ys|
  {
    if |ys| == 0 then [] else AddToDate(ByTitle(ys[..|ys| - 1]), ys[|ys| - 1])
  }

  predicate AllBeforeEvening(ys: seq<Slot>) {
    forall k :: 0 <= k < |ys| ==> ys[k].evening
  }

  /** The weekend flag of the first of the slots. */
  predicate FirstWeekend(ys: seq<Slot>) {
    |ys| > 0 && ys[0].weekend
  }

  /** The entry for date `d` after the slots `xs`. */
  function Expected(xs: seq<Slot>, d: string): Group {
    Group(d, ByTitle(OnDate(xs, d)), FirstWeekend(OnDate(xs, d)), AllBeforeEvening(OnDate(xs, d)))
  }

  function DateSet(gs: seq<Group>): set<string> {
    set i | 0 <= i < |gs| :: gs[i].date
  }

  predicate DistinctDates(gs: seq<Group>) {
    forall i, j :: 0 <= i < j < |gs| ==> gs[i].date != gs[j].date
  }

  /** One entry per date seen, each holding what that date's slots make. */
  predicate Bucketed(gs: seq<Group>, xs: seq<Slot>) {
    && DistinctDates(gs)
    && DateSet(gs) == SlotDates(xs)
    && forall i :: 0 <= i < |gs| ==> gs[i] == Expected(xs, gs[i].date)
  }

  lemma OnDateSnoc(xs: seq<Slot>, x: Slot, d: string)
    ensures OnDate(xs + [x], d) == OnDate(xs, d) + (if x.date == d then [x] else [])
  {
    assert (xs + [x])[..|xs|] == xs;
  }

  lemma {:induction false} OnDateAbsent(xs: seq<Slot>, d: string)
    requires d !in SlotDates(xs)
    ensures OnDate(xs, d) == []
    decreases |xs|
  {
    if |xs| > 0 {
      var init := xs[..|xs| - 1];
      assert forall k :: 0 <= k < |init| ==> init[k] == xs[k];
      OnDateAbsent(init, d);
    }
  }

  /** The slots on a date are exactly those whose date it is, in order. */
  lemma {:induction false} OnDateSpec(xs: seq<Slot>, d: string)
    ensures forall k :: 0 <= k < |OnDate(xs, d)| ==> OnDate(xs, d)[k].date == d
    ensures forall k :: 0 <= k < |xs| && xs[k].date == d ==> xs[k] in OnDate(xs, d)
    ensures forall y :: y in OnDate(xs, d) ==> y in xs
    decreases |xs|
  {
    if |xs| > 0 {
      var init, x := xs[..|xs| - 1], xs[|xs| - 1];
      assert xs == init + [x];
      OnDateSpec(init, d);
      OnDateSnoc(init, x, d);
      assert forall k :: 0 <= k < |init| ==> init[k] == xs[k];
    }
  }

  lemma SlotDatesSnoc(xs: seq<Slot>, x: Slot)
    ensures SlotDates(xs + [x]) == SlotDates(xs) + {x.date}
  {
    SlotDatesAppend(xs, [x]);
    assert [x][0] == x;
    assert SlotDates([x]) == {x.date};
  }

  lemma ByTitleSnoc(ys: seq<Slot>, y: Slot)
    ensures ByTitle(ys + [y]) == AddToDate(ByTitle(ys), y)
    ensures AllBeforeEvening(ys + [y]) <==> AllBeforeEvening(ys) && y.evening
    ensures FirstWeekend(ys + [y]) == if |ys| > 0 then FirstWeekend(ys) else y.weekend
  {
    var zs := ys + [y];
    assert zs[..|zs| - 1] == ys && zs[|zs| - 1] == y;
    if AllBeforeEvening(zs) {
      forall k | 0 <= k < |ys| ensures ys[k].evening {
        assert zs[k] == ys[k];
      }
    }
    if AllBeforeEvening(ys) && y.evening {
      forall k | 0 <= k < |zs| ensures zs[k].evening {
        if k < |ys| {
          assert zs[k] == ys[k];
        }
      }
    }
    if |ys| > 0 {
      assert zs[0] == ys[0];
    }
  }


  lemma DateSetUpdate(gs: seq<Group>, i: nat, g: Group)
    requires i < |gs| && g.date == gs[i].date
    ensures DateSet(gs[i := g]) == DateSet(gs)
  {
    var r := gs[i := g];
    forall d | d in DateSet(r) ensures d in DateSet(gs) {
      var k :| 0 <= k < |r| && r[k].date == d;
      assert gs[k].date == d;
    }
    forall d | d in DateSet(gs) ensures d in DateSet(r) {
      var k :| 0 <= k < |gs| && gs[k].date == d;
      assert r[k].date == d;
    }
  }

  lemma DateSetSnoc(gs: seq<Group>, g: Group)
    ensures DateSet(gs + [g]) == DateSet(gs) + {g.date}
  {
    var r := gs + [g];
    assert forall k :: 0 <= k < |gs| ==> r[k] == gs[k];
    assert r[|gs|] == g;
  }

  /** The entry of the slot's own date, extended by it. */
  lemma KnownDateSame(g: Group, xs: seq<Slot>, x: Slot)
    requires g.date == x.date && g == Expected(xs, x.date) && |OnDate(xs, x.date)| > 0
    ensures Extend(g, x) == Expected(xs + [x], x.date)
  {
    var ys := OnDate(xs, x.date);
    OnDateSnoc(xs, x, x.date);
    assert OnDate(xs + [x], x.date) == ys + [x];
    ByTitleSnoc(ys, x);
  }

  /** The entry at `k` after a slot on the date of entry `i`. */
  lemma KnownDateAt(gs: seq<Group>, xs: seq<Slot>, x: Slot, i: nat, k: nat)
    requires i < |gs| && gs[i].date == x.date && k < |gs|
    requires DistinctDates(gs) && gs[i] == Expected(xs, x.date) && gs[k] == Expected(xs, gs[k].date)
    requires |OnDate(xs, x.date)| > 0
    ensures var r := gs[i := Extend(gs[i], x)];
            r[k] == Expected(xs + [x], r[k].date)
  {
    var r := gs[i := Extend(gs[i], x)];
    if k == i {
      KnownDateSame(gs[i], xs, x);
    } else {
      OnDateSnoc(xs, x, gs[k].date);
      assert gs[k].date != x.date;
      assert OnDate(xs + [x], gs[k].date) == OnDate(xs, gs[k].date) + [] == OnDate(xs, gs[k].date);
      assert r[k] == gs[k];
    }
  }

  /** A date some slot falls on has slots. */
  lemma OnDateNonEmpty(xs: seq<Slot>, d: string)
    requires d in SlotDates(xs)
    ensures |OnDate(xs, d)| > 0
  {
    OnDateSpec(xs, d);
    var k :| 0 <= k < |xs| && xs[k].date == d;
    assert xs[k] in OnDate(xs, d);
  }

  /** A slot on a date already present extends that entry only. */
  lemma PlaceKnown(gs: seq<Group>, xs: seq<Slot>, x: Slot)
    requires Bucketed(gs, xs) && IndexOfDate(gs, x.date).Some?
    ensures Bucketed(Place(gs, x), xs + [x])
  {
    var i := IndexOfDate(gs, x.date).value;
    var r := Place(gs, x);
    assert r == gs[i := Extend(gs[i], x)];
    SlotDatesSnoc(xs, x);
    DateSetUpdate(gs, i, Extend(gs[i], x));
    assert x.date in DateSet(gs);
    OnDateNonEmpty(xs, x.date);
    forall k | 0 <= k < |r| ensures r[k] == Expected(xs + [x], r[k].date) {
      KnownDateAt(gs, xs, x, i, k);
    }
  }

  /** The entry at `k` after a slot on a date not yet present. */
  lemma FreshDateAt(gs: seq<Group>, xs: seq<Slot>, x: Slot, k: nat)
    requires k <= |gs| && OnDate(xs, x.date) == []
    requires k < |gs| ==> gs[k].date != x.date && gs[k] == Expected(xs, gs[k].date)
    ensures var r := gs + [Extend(Group(x.date, [], x.weekend, true), x)];
            r[k] == Expected(xs + [x], r[k].date)
  {
    var r := gs + [Extend(Group(x.date, [], x.weekend, true), x)];
    OnDateSnoc(xs, x, r[k].date);
    if k < |gs| {
      assert r[k] == gs[k];
      assert OnDate(xs + [x], gs[k].date) == OnDate(xs, gs[k].date) + [] == OnDate(xs, gs[k].date);
    } else {
      ByTitleSnoc([], x);
      assert [] + [x] == [x];
    }
  }

  /** A slot on a new date appends a fresh entry. */
  lemma PlaceFresh(gs: seq<Group>, xs: seq<Slot>, x: Slot)
    requires Bucketed(gs, xs) && IndexOfDate(gs, x.date).None?
    ensures Bucketed(Place(gs, x), xs + [x])
  {
    var g := Extend(Group(x.date, [], x.weekend, true), x);
    var r := Place(gs, x);
    assert r == gs + [g];
    SlotDatesSnoc(xs, x);
    DateSetSnoc(gs, g);
    OnDateAbsent(xs, x.date);
    forall k | 0 <= k < |r| ensures r[k] == Expected(xs + [x], r[k].date) {
      FreshDateAt(gs, xs, x, k);
    }
    forall i, j | 0 <= i < j < |r| ensures r[i].date != r[j].date {
      assert r[i] == gs[i];
      if j < |gs| {
        assert r[j] == gs[j];
      }
    }
  }

  /** The loop files every slot under its own date: one entry per distinct
      date, in order of first sight, each as `Expected` describes. */
  lemma {:induction false} CollectBuckets(xs: seq<Slot>)
    ensures Bucketed(Collect(xs), xs)
    decreases |xs|
  {
    if |xs| > 0 {
      var init, x := xs[..|xs| - 1], xs[|xs| - 1];
      assert xs == init + [x];
      CollectBuckets(init);
      if IndexOfDate(Collect(init), x.date).Some? {
        PlaceKnown(Collect(init), init, x);
      } else {
        PlaceFresh(Collect(init), init, x);
      }
    }
  }

  // ---------------------------------------------------------------------------
  // Within one date: one movie per title
  // ---------------------------------------------------------------------------

  function SlotTitles(ys: seq<Slot>): set<string> {
    set k | 0 <= k < |ys| :: ys[k].movie.title
  }

  /** The first slot's movie with title `t`. */
  function FirstMovie(ys: seq<Slot>, t: string): Option<Movie>
    decreases |ys|
  {
    if |ys| == 0 then None
    else
      var prev := FirstMovie(ys[..|ys| - 1], t);
      if prev.Some? then prev
      else if ys[|ys| - 1].movie.title == t then Some(ys[|ys| - 1].movie)
      else None
  }

  /** The screenings of the slots whose movie is titled `t`, in order. */
  function ScreeningsOf(ys: seq<Slot>, t: string): seq<Screening>
    decreases |ys|
  {
    if |ys| == 0 then []
    else ScreeningsOf(ys[..|ys| - 1], t) + (if ys[|ys| - 1].movie.title == t then [ys[|ys| - 1].screening] else [])
  }

  /** One movie per title: the first movie of that title, holding all
      screenings of that title, in order. */
  predicate Titled(r: seq<Movie>, ys: seq<Slot>) {
    && DistinctTitles(r)
    && TitleSet(r) == SlotTitles(ys)
    && forall k :: 0 <= k < |r| ==>
         FirstMovie(ys, r[k].title).Some? && r[k] == FirstMovie(ys, r[k].title).value.(screenings := ScreeningsOf(ys, r[k].title))
  }

  lemma SnocFacts(ys: seq<Slot>, y: Slot, t: string)
    ensures FirstMovie(ys + [y], t) == if FirstMovie(ys, t).Some? then FirstMovie(ys, t)
                                       else if y.movie.title == t then Some(y.movie) else None
    ensures ScreeningsOf(ys + [y], t) == ScreeningsOf(ys, t) + (if y.movie.title == t then [y.screening] else [])
    ensures SlotTitles(ys + [y]) == SlotTitles(ys) + {y.movie.title}
  {
    var zs := ys + [y];
    assert zs[..|ys|] == ys;
    assert forall k :: 0 <= k < |ys| ==> zs[k] == ys[k];
    assert zs[|ys|] == y;
  }

  lemma {:induction false} AbsentTitle(ys: seq<Slot>, t: string)
    requires t !in SlotTitles(ys)
    ensures FirstMovie(ys, t).None? && ScreeningsOf(ys, t) == []
    decreases |ys|
  {
    if |ys| > 0 {
      var init := ys[..|ys| - 1];
      assert forall k :: 0 <= k < |init| ==> init[k] == ys[k];
      AbsentTitle(init, t);
    }
  }

  /** The movie at `k` after a slot of a title already present. */
  lemma KnownTitleAt(prev: seq<Movie>, ys: seq<Slot>, y: Slot, i: nat, k: nat)
    requires Titled(prev, ys)
    requires i < |prev| && prev[i].title == y.movie.title && k < |prev|
    ensures var r := prev[i := prev[i].(screenings := prev[i].screenings + [y.screening])];
            FirstMovie(ys + [y], r[k].title).Some?
            && r[k] == FirstMovie(ys + [y], r[k].title).value.(screenings := ScreeningsOf(ys + [y], r[k].title))
  {
    SnocFacts(ys, y, prev[k].title);
    if k != i {
      assert prev[k].title != y.movie.title;
    }
  }

  lemma AddKnownTitle(ys: seq<Slot>, y: Slot)
    requires Titled(ByTitle(ys), ys) && IndexOfTitle(ByTitle(ys), y.movie.title).Some?
    ensures Titled(ByTitle(ys + [y]), ys + [y])
  {
    var zs := ys + [y];
    assert zs[..|zs| - 1] == ys;
    var prev := ByTitle(ys);
    var i := IndexOfTitle(prev, y.movie.title).value;
    var r := prev[i := prev[i].(screenings := prev[i].screenings + [y.screening])];
    assert ByTitle(zs) == r;
    SnocFacts(ys, y, y.movie.title);
    forall k | 0 <= k < |r|
      ensures FirstMovie(zs, r[k].title).Some? && r[k] == FirstMovie(zs, r[k].title).value.(screenings := ScreeningsOf(zs, r[k].title))
    {
      KnownTitleAt(prev, ys, y, i, k);
    }
    assert TitleSet(r) == TitleSet(prev) by {
      forall t | t in TitleSet(r) ensures t in TitleSet(prev) {
        var k :| 0 <= k < |r| && r[k].title == t;
        assert prev[k].title == t;
      }
      forall t | t in TitleSet(prev) ensures t in TitleSet(r) {
        var k :| 0 <= k < |prev| && prev[k].title == t;
        assert r[k].title == t;
      }
    }
  }

  /** The movie at `k` after a slot of a new title. */
  lemma FreshTitleAt(prev: seq<Movie>, ys: seq<Slot>, y: Slot, k: nat)
    requires Titled(prev, ys)
    requires FirstMovie(ys, y.movie.title).None? && ScreeningsOf(ys, y.movie.title) == []
    requires k <= |prev|
    ensures var r := prev + [y.movie.(screenings := [y.screening])];
            FirstMovie(ys + [y], r[k].title).Some?
            && r[k] == FirstMovie(ys + [y], r[k].title).value.(screenings := ScreeningsOf(ys + [y], r[k].title))
  {
    var r := prev + [y.movie.(screenings := [y.screening])];
    SnocFacts(ys, y, r[k].title);
    if k < |prev| {
      assert r[k] == prev[k];
    }
  }

  lemma AddFreshTitle(ys: seq<Slot>, y: Slot)
    requires Titled(ByTitle(ys), ys) && IndexOfTitle(ByTitle(ys), y.movie.title).None?
    ensures Titled(ByTitle(ys + [y]), ys + [y])
  {
    var zs := ys + [y];
    assert zs[..|zs| - 1] == ys;
    var prev := ByTitle(ys);
    var m := y.movie.(screenings := [y.screening]);
    var r := prev + [m];
    assert ByTitle(zs) == r;
    SnocFacts(ys, y, y.movie.title);
    InTitleSet(prev, y.movie.title);
    AbsentTitle(ys, y.movie.title);
    forall k | 0 <= k < |r|
      ensures FirstMovie(zs, r[k].title).Some? && r[k] == FirstMovie(zs, r[k].title).value.(screenings := ScreeningsOf(zs, r[k].title))
    {
      FreshTitleAt(prev, ys, y, k);
    }
    TitleSetAppend(prev, m);
  }

  /** Within a date each title appears once, as the first movie of that
      title carrying all that title's screenings of the date, in order. */
  lemma {:induction false} ByTitleGroups(ys: seq<Slot>)
    ensures Titled(ByTitle(ys), ys)
    decreases |ys|
  {
    if |ys| > 0 {
      var init, y := ys[..|ys| - 1], ys[|ys| - 1];
      assert ys == init + [y];
      ByTitleGroups(init);
      if IndexOfTitle(ByTitle(init), y.movie.title).Some? {
        AddKnownTitle(init, y);
      } else {
        AddFreshTitle(init, y);
      }
    }
  }

  // ---------------------------------------------------------------------------
  // Sorting a date's movies by earliest screening
  // ---------------------------------------------------------------------------

  /** The sort key: the movie's earliest time, read as (hour, minute). The
      "" stands in for an absent earliest time, which `EarliestDefined`
      shows no movie of a date entry has. */
  function Rank(m: Movie): (Num, Num) {
    HoursMinutes(GetEarliestScreeningTime(m.screenings).GetOr(""))
  }

  /** Sorted by the keys `rank` gives, where those keys read as numbers. */
  predicate SortedBy(ms: seq<Movie>, rank: Movie -> (Num, Num)) {
    forall i, j :: 0 <= i < j < |ms| && Known(rank(ms[i])) && Known(rank(ms[j])) ==> !LexLess(Key(rank(ms[j])), Key(rank(ms[i])))
  }

  predicate RanksKnown(ms: seq<Movie>, rank: Movie -> (Num, Num)) {
    forall m :: m in ms ==> Known(rank(m))
  }

  /** Insertion after every movie that `m` does not sort before, so that
      equal keys keep their order. */
  function Insert(m: Movie, ms: seq<Movie>, rank: Movie -> (Num, Num)): (r: seq<Movie>)
    ensures multiset(r) == multiset(ms) + multiset{m}
    decreases |ms|
  {
    if |ms| == 0 then [m]
    else if PartsBefore(rank(m), rank(ms[0])) then [m] + ms
    else
      assert ms == [ms[0]] + ms[1..];
      [ms[0]] + Insert(m, ms[1..], rank)
  }

  /** What the rest of a sorted list is, given its head. */
  lemma SortedTail(ms: seq<Movie>, rank: Movie -> (Num, Num))
    requires |ms| > 0 && SortedBy(ms, rank) && RanksKnown(ms, rank)
    ensures SortedBy(ms[1..], rank) && RanksKnown(ms[1..], rank)
    ensures forall j :: 0 < j < |ms| ==> !LexLess(Key(rank(ms[j])), Key(rank(ms[0])))
  {
    var tail := ms[1..];
    assert forall x :: x in tail ==> x in ms;
    forall i, j | 0 <= i < j < |tail| ensures !LexLess(Key(rank(tail[j])), Key(rank(tail[i]))) {
      assert tail[i] == ms[i + 1] && tail[j] == ms[j + 1];
    }
  }

  /** Insertion into a sorted list keeps it sorted. */
  lemma {:induction false} InsertSorted(m: Movie, ms: seq<Movie>, rank: Movie -> (Num, Num))
    requires Known(rank(m)) && RanksKnown(ms, rank) && SortedBy(ms, rank)
    ensures SortedBy(Insert(m, ms, rank), rank)
    decreases |ms|
  {
    if |ms| > 0 {
      var h := ms[0];
      PartsBeforeIsLexLess(rank(m), rank(h));
      SortedTail(ms, rank);
      if PartsBefore(rank(m), rank(h)) {
        forall j | 0 <= j < |ms| ensures Known(rank(ms[j])) && !LexLess(Key(rank(ms[j])), Key(rank(m))) {
          assert ms[j] in ms;
        }
        ConsSorted(m, ms, rank);
      } else {
        var tail := ms[1..];
        InsertSorted(m, tail, rank);
        var rest := Insert(m, tail, rank);
        forall j | 0 <= j < |rest| ensures Known(rank(rest[j])) && !LexLess(Key(rank(rest[j])), Key(rank(h))) {
          assert rest[j] in multiset(rest);
          if rest[j] != m {
            assert rest[j] in multiset(tail);
            var q :| 0 <= q < |tail| && tail[q] == rest[j];
            assert tail[q] == ms[q + 1];
          }
        }
        ConsSorted(h, rest, rank);
      }
    }
  }

  /** A head no later than anything behind it extends a sorted list. */
  lemma ConsSorted(h: Movie, rest: seq<Movie>, rank: Movie -> (Num, Num))
    requires Known(rank(h)) && SortedBy(rest, rank)
    requires forall j :: 0 <= j < |rest| ==> Known(rank(rest[j])) && !LexLess(Key(rank(rest[j])), Key(rank(h)))
    ensures SortedBy([h] + rest, rank)
  {
    var r := [h] + rest;
    forall i, j | 0 <= i < j < |r| && Known(rank(r[i])) && Known(rank(r[j]))
      ensures !LexLess(Key(rank(r[j])), Key(rank(r[i])))
    {
      assert r[j] == rest[j - 1];
      if i > 0 { assert r[i] == rest[i - 1]; }
    }
  }


  /** A stable insertion sort by the comparator on the keys `rank` gives. */
  function SortBy(ms: seq<Movie>, rank: Movie -> (Num, Num)): (r: seq<Movie>)
    ensures multiset(r) == multiset(ms)
    decreases |ms|
  {
    if |ms| == 0 then []
    else
      var init := ms[..|ms| - 1];
      assert ms == init + [ms[|ms| - 1]];
      Insert(ms[|ms| - 1], SortBy(init, rank), rank)
  }

  /** Once every key reads as numbers, the sort orders the movies by
      (hour, minute). */
  lemma {:induction false} SortBySorted(ms: seq<Movie>, rank: Movie -> (Num, Num))
    requires RanksKnown(ms, rank)
    ensures SortedBy(SortBy(ms, rank), rank)
    decreases |ms|
  {
    if |ms| > 0 {
      var init := ms[..|ms| - 1];
      assert forall x :: x in init ==> x in ms;
      SortBySorted(init, rank);
      var sorted := SortBy(init, rank);
      assert RanksKnown(sorted, rank) by {
        forall x | x in sorted ensures Known(rank(x)) {
          assert x in multiset(sorted);
          assert x in multiset(init);
        }
      }
      InsertSorted(ms[|ms| - 1], sorted, rank);
    }
  }

  /** The sort is sorted wherever every key reads as numbers. */
  lemma SortBySortedWhenKnown(ms: seq<Movie>, rank: Movie -> (Num, Num))
    ensures RanksKnown(ms, rank) ==> SortedBy(SortBy(ms, rank), rank)
  {
    if RanksKnown(ms, rank) {
      SortBySorted(ms, rank);
    }
  }

  /** `dateGroup.movies.sort(...)` by `compareTimeStrings` of the earliest
      times: a reordering of the movies, ordered by earliest time once all
      earliest times read as numbers. */
  function SortByEarliest(ms: seq<Movie>): (r: seq<Movie>)
    ensures multiset(r) == multiset(ms)
    ensures RanksKnown(ms, Rank) ==> SortedBy(r, Rank)
  {
    SortBySortedWhenKnown(ms, Rank);
    SortBy(ms, Rank)
  }

  /** The final pass over the entries: each keeps its date and flags, and
      its movies are reordered by earliest time. */
  function SortAll(gs: seq<Group>): (r: seq<Group>)
    ensures |r| == |gs|
    ensures forall i :: 0 <= i < |gs| ==> r[i] == gs[i].(movies := SortByEarliest(gs[i].movies))
    ensures forall i :: 0 <= i < |gs| ==>
              && r[i].date == gs[i].date && r[i].isWeekend == gs[i].isWeekend
              && r[i].isMorningOnly == gs[i].isMorningOnly
              && multiset(r[i].movies) == multiset(gs[i].movies)
              && (RanksKnown(gs[i].movies, Rank) ==> SortedBy(r[i].movies, Rank))
  {
    seq(|gs|, i requires 0 <= i < |gs| => gs[i].(movies := SortByEarliest(gs[i].movies)))
  }

  /** `groupMoviesByDate`: a TypeError when some screening has no time part;
      otherwise the date entries with their movies sorted. */
  function GroupMoviesByDate(ms: seq<Movie>): (r: Result<seq<Group>, Error>)
    ensures r.Err? <==> !AllTimed(ms)
  {
    if !AllTimed(ms) then Err(TypeError) else Ok(SortAll(Collect(AllSlots(ms))))
  }

  /** A date's entry is morning-only iff every slot on that date is
      before evening. */
  lemma {:induction false} MorningOnlyOfDate(xs: seq<Slot>, d: string)
    ensures AllBeforeEvening(OnDate(xs, d)) <==> forall k :: 0 <= k < |xs| && xs[k].date == d ==> xs[k].evening
    decreases |xs|
  {
    if |xs| > 0 {
      var init, x := xs[..|xs| - 1], xs[|xs| - 1];
      assert xs == init + [x];
      MorningOnlyOfDate(init, d);
      OnDateSnoc(init, x, d);
      assert forall k :: 0 <= k < |init| ==> init[k] == xs[k];
      if x.date == d {
        ByTitleSnoc(OnDate(init, d), x);
      } else {
        assert OnDate(xs, d) == OnDate(init, d) + [] == OnDate(init, d);
      }
    }
  }

  /** Every screening on date `d` is before evening. */
  predicate AllMorningOn(xs: seq<Slot>, d: string) {
    forall k :: 0 <= k < |xs| && xs[k].date == d ==> IsBeforeEvening(xs[k].time)
  }

  /** The flags of the entry for a date seen. */
  lemma EntryFlags(xs: seq<Slot>, d: string)
    requires WellRead(xs) && d in SlotDates(xs)
    ensures FirstWeekend(OnDate(xs, d)) == IsWeekend(d)
    ensures AllBeforeEvening(OnDate(xs, d)) <==> AllMorningOn(xs, d)
  {
    MorningOnlyOfDate(xs, d);
    OnDateSpec(xs, d);
    var k :| 0 <= k < |xs| && xs[k].date == d;
    assert xs[k] in OnDate(xs, d);
    var ys := OnDate(xs, d);
    assert ys[0] in xs;
  }

  /** What the grouping yields: one entry per screening date, holding
      whether that date is a Friday or Saturday, whether all its screenings
      are before evening, and, as a reordering of the per-title gathering of
      that date's screenings, its movies. */
  lemma GroupMoviesByDateSpec(ms: seq<Movie>)
    requires AllTimed(ms)
    ensures var gs := GroupMoviesByDate(ms).value;
            var xs := AllSlots(ms);
            && DistinctDates(gs)
            && DateSet(gs) == GetAllDatesFromMovies(ms)
            && forall i :: 0 <= i < |gs| ==>
                 && gs[i].isWeekend == IsWeekend(gs[i].date)
                 && (gs[i].isMorningOnly <==> AllMorningOn(xs, gs[i].date))
                 && multiset(gs[i].movies) == multiset(ByTitle(OnDate(xs, gs[i].date)))
  {
    var xs := AllSlots(ms);
    var cs := Collect(xs);
    var gs := SortAll(cs);
    CollectBuckets(xs);
    SlotDatesAreAllDates(ms);
    assert DateSet(gs) == DateSet(cs) by {
      assert forall i :: 0 <= i < |gs| ==> gs[i].date == cs[i].date;
    }
    forall i | 0 <= i < |gs|
      ensures gs[i].isWeekend == IsWeekend(gs[i].date)
      ensures gs[i].isMorningOnly <==> AllMorningOn(xs, gs[i].date)
    {
      GroupEntryFlags(ms, i);
    }
  }

  /** The flags of one entry of the grouping. */
  lemma GroupEntryFlags(ms: seq<Movie>, i: nat)
    requires AllTimed(ms) && i < |GroupMoviesByDate(ms).value|
    ensures var g := GroupMoviesByDate(ms).value[i];
            var xs := AllSlots(ms);
            && g.isWeekend == IsWeekend(g.date)
            && (g.isMorningOnly <==> AllMorningOn(xs, g.date))
  {
    var xs := AllSlots(ms);
    var cs := Collect(xs);
    CollectBuckets(xs);
    AllSlotsWellRead(ms);
    var g := GroupMoviesByDate(ms).value[i];
    assert g.date == cs[i].date && g.isWeekend == cs[i].isWeekend && g.isMorningOnly == cs[i].isMorningOnly;
    assert g.date in DateSet(cs);
    EntryFlags(xs, g.date);
  }

  /** Each date entry's movies are sorted by earliest time once all those
      times read as numbers; the gathering inside the entry puts each title
      once, as the first movie of that title screened that date, with all of
      that title's screenings on that date in visiting order. */
  lemma GroupTitles(ms: seq<Movie>, i: nat)
    requires AllTimed(ms) && i < |GroupMoviesByDate(ms).value|
    ensures var g := GroupMoviesByDate(ms).value[i];
            var ys := OnDate(AllSlots(ms), g.date);
            var byTitle := ByTitle(ys);
            && (forall k :: 0 <= k < |ys| ==> ys[k].date == g.date)
            && multiset(g.movies) == multiset(byTitle)
            && (RanksKnown(g.movies, Rank) ==> SortedBy(g.movies, Rank))
            && DistinctTitles(byTitle)
            && TitleSet(byTitle) == SlotTitles(ys)
            && forall k :: 0 <= k < |byTitle| ==>
                 FirstMovie(ys, byTitle[k].title).Some?
                 && byTitle[k] == FirstMovie(ys, byTitle[k].title).value.(screenings := ScreeningsOf(ys, byTitle[k].title))
  {
    var xs := AllSlots(ms);
    CollectBuckets(xs);
    var g := GroupMoviesByDate(ms).value[i];
    var ys := OnDate(xs, g.date);
    OnDateSpec(xs, g.date);
    ByTitleGroups(ys);
    var byTitle := ByTitle(ys);
    assert g.movies == SortByEarliest(byTitle);
    if RanksKnown(g.movies, Rank) {
      assert RanksKnown(byTitle, Rank) by {
        forall x | x in byTitle ensures Known(Rank(x)) {
          assert x in multiset(byTitle);
          assert x in multiset(g.movies);
        }
      }
      SortBySorted(byTitle, Rank);
    }
  }

  /** The screenings of a title within a date: at least one for a title
      that occurs, each with a time part. */
  lemma {:induction false} ScreeningsOfTimed(ys: seq<Slot>, t: string)
    requires forall k :: 0 <= k < |ys| ==> TimePart(ys[k].screening.dateTime).Some?
    ensures forall j :: 0 <= j < |ScreeningsOf(ys, t)| ==> TimePart(ScreeningsOf(ys, t)[j].dateTime).Some?
    ensures t in SlotTitles(ys) ==> |ScreeningsOf(ys, t)| > 0
    decreases |ys|
  {
    if |ys| > 0 {
      var init, y := ys[..|ys| - 1], ys[|ys| - 1];
      assert ys == init + [y];
      assert forall k :: 0 <= k < |init| ==> init[k] == ys[k];
      ScreeningsOfTimed(init, t);
      SnocFacts(init, y, t);
    }
  }

  /** Every movie of a date entry has an earliest screening time, so the
      sort never compares an absent time. */
  lemma EarliestDefined(ms: seq<Movie>, i: nat, k: nat)
    requires AllTimed(ms)
    ensures GroupMoviesByDate(ms).Ok?
    ensures var gs := GroupMoviesByDate(ms).value;
            i < |gs| && k < |gs[i].movies| ==> GetEarliestScreeningTime(gs[i].movies[k].screenings).Some?
  {
    var gs := GroupMoviesByDate(ms).value;
    if i < |gs| && k < |gs[i].movies| {
      var xs := AllSlots(ms);
      var g := GroupMoviesByDate(ms).value[i];
      var ys := OnDate(xs, g.date);
      GroupTitles(ms, i);
      AllSlotsWellRead(ms);
      OnDateSpec(xs, g.date);
      assert forall j :: 0 <= j < |ys| ==> TimePart(ys[j].screening.dateTime).Some? by {
        forall j | 0 <= j < |ys| ensures TimePart(ys[j].screening.dateTime).Some? {
          assert ys[j] in xs;
        }
      }
      var m := g.movies[k];
      var byTitle := ByTitle(ys);
      assert m in multiset(byTitle) by { assert m in multiset(g.movies); }
      var p :| 0 <= p < |byTitle| && byTitle[p] == m;
      TimedGroupHasEarliest(ys, p);
    }
  }

  /** A per-title movie gathered from timed slots has an earliest time. */
  lemma TimedGroupHasEarliest(ys: seq<Slot>, p: nat)
    requires forall j :: 0 <= j < |ys| ==> TimePart(ys[j].screening.dateTime).Some?
    requires p < |ByTitle(ys)|
    ensures GetEarliestScreeningTime(ByTitle(ys)[p].screenings).Some?
  {
    var byTitle := ByTitle(ys);
    var m := byTitle[p];
    ByTitleGroups(ys);
    assert m.title in SlotTitles(ys) by { assert m.title in TitleSet(byTitle); }
    ScreeningsOfTimed(ys, m.title);
    EarliestIsMinimal(m.screenings);
    assert TimePart(m.screenings[0].dateTime).Some?;
  }

  // ---------------------------------------------------------------------------
  // Every screening is filed once, under its own date
  // ---------------------------------------------------------------------------

  /** The union, with multiplicity, of the screenings each element holds. */
  function SumBags<T>(xs: seq<T>, bag: T -> multiset<Screening>): multiset<Screening>
    decreases |xs|
  {
    if |xs| == 0 then multiset{} else bag(xs[0]) + SumBags(xs[1..], bag)
  }

  function MovieBag(m: Movie): multiset<Screening> {
    multiset(m.screenings)
  }

  /** The screenings of all the movies of one date's entry. */
  function GroupBag(g: Group): multiset<Screening> {
    SumBags(g.movies, MovieBag)
  }

  function SlotBag(x: Slot): multiset<Screening> {
    multiset{x.screening}
  }

  lemma {:induction false} SumBagsAppend<T>(a: seq<T>, b: seq<T>, bag: T -> multiset<Screening>)
    ensures SumBags(a + b, bag) == SumBags(a, bag) + SumBags(b, bag)
    decreases |a|
  {
    if |a| == 0 {
      assert a + b == b;
    } else {
      assert (a + b)[1..] == a[1..] + b;
      SumBagsAppend(a[1..], b, bag);
    }
  }

  lemma SumBagsSnoc<T>(xs: seq<T>, bag: T -> multiset<Screening>)
    requires |xs| > 0
    ensures SumBags(xs, bag) == SumBags(xs[..|xs| - 1], bag) + bag(xs[|xs| - 1])
  {
    var init, last := xs[..|xs| - 1], xs[|xs| - 1];
    assert xs == init + [last];
    SumBagsAppend(init, [last], bag);
    assert [last][1..] == [];
  }

  /** Replacing one element swaps its bag for the new one. */
  lemma {:induction false} SumBagsUpdate<T>(xs: seq<T>, k: nat, x: T, bag: T -> multiset<Screening>)
    requires k < |xs|
    ensures SumBags(xs[k := x], bag) + bag(xs[k]) == SumBags(xs, bag) + bag(x)
    decreases |xs|
  {
    if k == 0 {
      assert xs[k := x][1..] == xs[1..];
    } else {
      var ys := xs[k := x];
      assert ys[0] == xs[0] && xs[1..][k - 1] == xs[k];
      assert ys[1..] == xs[1..][k - 1 := x];
      SumBagsUpdate(xs[1..], k - 1, x, bag);
      calc {
        SumBags(ys, bag) + bag(xs[k]);
        bag(xs[0]) + (SumBags(xs[1..][k - 1 := x], bag) + bag(xs[k]));
        bag(xs[0]) + (SumBags(xs[1..], bag) + bag(x));
        SumBags(xs, bag) + bag(x);
      }
    }
  }

  lemma {:induction false} SumBagsPointwise<T, U>(xs: seq<T>, ys: seq<U>, f: T -> multiset<Screening>, g: U -> multiset<Screening>)
    requires |xs| == |ys| && forall i :: 0 <= i < |xs| ==> f(xs[i]) == g(ys[i])
    ensures SumBags(xs, f) == SumBags(ys, g)
    decreases |xs|
  {
    if |xs| > 0 {
      assert forall i :: 0 <= i < |xs| - 1 ==> xs[1..][i] == xs[i + 1] && ys[1..][i] == ys[i + 1];
      SumBagsPointwise(xs[1..], ys[1..], f, g);
    }
  }

  lemma {:induction false} InsertBag(m: Movie, ms: seq<Movie>, rank: Movie -> (Num, Num))
    ensures SumBags(Insert(m, ms, rank), MovieBag) == MovieBag(m) + SumBags(ms, MovieBag)
    decreases |ms|
  {
    if |ms| == 0 {
      assert [m][1..] == [];
    } else if PartsBefore(rank(m), rank(ms[0])) {
      assert ([m] + ms)[1..] == ms;
    } else {
      var rest := Insert(m, ms[1..], rank);
      InsertBag(m, ms[1..], rank);
      assert ([ms[0]] + rest)[1..] == rest;
    }
  }

  /** Sorting moves movies, never screenings. */
  lemma {:induction false} SortByBag(ms: seq<Movie>, rank: Movie -> (Num, Num))
    ensures SumBags(SortBy(ms, rank), MovieBag) == SumBags(ms, MovieBag)
    decreases |ms|
  {
    if |ms| > 0 {
      var init, last := ms[..|ms| - 1], ms[|ms| - 1];
      assert SortBy(ms, rank) == Insert(last, SortBy(init, rank), rank);
      SortByBag(init, rank);
      InsertBag(last, SortBy(init, rank), rank);
      SumBagsSnoc(ms, MovieBag);
    }
  }

  lemma BagCancel(a: multiset<Screening>, b: multiset<Screening>, c: multiset<Screening>)
    requires a + c == b + c
    ensures a == b
  {
    forall z
      ensures a[z] == b[z]
    {
      assert (a + c)[z] == a[z] + c[z] && (b + c)[z] == b[z] + c[z];
    }
  }

  /** Filing a slot within its date adds exactly its screening. */
  lemma AddToDateBag(ms: seq<Movie>, x: Slot)
    ensures SumBags(AddToDate(ms, x), MovieBag) == SumBags(ms, MovieBag) + SlotBag(x)
  {
    match IndexOfTitle(ms, x.movie.title)
    case Some(k) =>
      var m := ms[k].(screenings := ms[k].screenings + [x.screening]);
      assert MovieBag(m) == MovieBag(ms[k]) + SlotBag(x);
      SumBagsUpdate(ms, k, m, MovieBag);
      BagCancel(SumBags(ms[k := m], MovieBag), SumBags(ms, MovieBag) + SlotBag(x), MovieBag(ms[k]));
    case None =>
      SumBagsAppend(ms, [x.movie.(screenings := [x.screening])], MovieBag);
  }

  lemma PlaceBag(gs: seq<Group>, x: Slot)
    ensures SumBags(Place(gs, x), GroupBag) == SumBags(gs, GroupBag) + SlotBag(x)
  {
    match IndexOfDate(gs, x.date)
    case Some(i) =>
      AddToDateBag(gs[i].movies, x);
      assert GroupBag(Extend(gs[i], x)) == GroupBag(gs[i]) + SlotBag(x);
      SumBagsUpdate(gs, i, Extend(gs[i], x), GroupBag);
      BagCancel(SumBags(gs[i := Extend(gs[i], x)], GroupBag), SumBags(gs, GroupBag) + SlotBag(x), GroupBag(gs[i]));
    case None =>
      var g := Group(x.date, [], x.weekend, true);
      AddToDateBag(g.movies, x);
      SumBagsAppend(gs, [Extend(g, x)], GroupBag);
  }

  lemma {:induction false} CollectBag(xs: seq<Slot>)
    ensures SumBags(Collect(xs), GroupBag) == SumBags(xs, SlotBag)
    decreases |xs|
  {
    if |xs| > 0 {
      var init := xs[..|xs| - 1];
      CollectBag(init);
      PlaceBag(Collect(init), xs[|xs| - 1]);
      SumBagsSnoc(xs, SlotBag);
    }
  }

  lemma {:induction false} SlotsBag(xs: seq<Slot>, ss: seq<Screening>)
    requires |xs| == |ss| && forall j :: 0 <= j < |xs| ==> xs[j].screening == ss[j]
    ensures SumBags(xs, SlotBag) == multiset(ss)
    decreases |xs|
  {
    if |xs| > 0 {
      assert forall j :: 0 <= j < |xs| - 1 ==> xs[1..][j] == xs[j + 1] && ss[1..][j] == ss[j + 1];
      SlotsBag(xs[1..], ss[1..]);
      assert ss == [ss[0]] + ss[1..];
    }
  }

  lemma SlotsOfBag(m: Movie)
    requires Timed(m)
    ensures SumBags(SlotsOf(m), SlotBag) == MovieBag(m)
  {
    SlotsBag(SlotsOf(m), m.screenings);
  }

  lemma AllTimedInit(ms: seq<Movie>)
    requires AllTimed(ms) && |ms| > 0
    ensures AllTimed(ms[..|ms| - 1])
  {
    assert forall i :: 0 <= i < |ms| - 1 ==> ms[..|ms| - 1][i] == ms[i];
  }

  lemma {:induction false} AllSlotsBag(ms: seq<Movie>)
    requires AllTimed(ms)
    ensures SumBags(AllSlots(ms), SlotBag) == SumBags(ms, MovieBag)
    decreases |ms|
  {
    if |ms| > 0 {
      var init, m := ms[..|ms| - 1], ms[|ms| - 1];
      AllTimedInit(ms);
      assert AllSlots(ms) == AllSlots(init) + SlotsOf(m);
      AllSlotsBag(init);
      SumBagsAppend(AllSlots(init), SlotsOf(m), SlotBag);
      SlotsOfBag(m);
      SumBagsSnoc(ms, MovieBag);
    }
  }

  lemma SortAllBag(gs: seq<Group>)
    ensures SumBags(SortAll(gs), GroupBag) == SumBags(gs, GroupBag)
  {
    var r := SortAll(gs);
    forall i | 0 <= i < |gs|
      ensures GroupBag(r[i]) == GroupBag(gs[i])
    {
      SortByBag(gs[i].movies, Rank);
    }
    SumBagsPointwise(r, gs, GroupBag, GroupBag);
  }

  /** Every screening of the movies has date part `d`. */
  predicate MoviesOn(ms: seq<Movie>, d: string) {
    forall k, j :: 0 <= k < |ms| && 0 <= j < |ms[k].screenings| ==>
      DatePart(ms[k].screenings[j].dateTime) == d
  }

  predicate GroupsOnDates(gs: seq<Group>) {
    forall i :: 0 <= i < |gs| ==> MoviesOn(gs[i].movies, gs[i].date)
  }

  /** Each slot's date is its screening's date part. */
  predicate SlotsDated(xs: seq<Slot>) {
    forall k :: 0 <= k < |xs| ==> xs[k].date == DatePart(xs[k].screening.dateTime)
  }

  lemma SlotsDatedAppend(a: seq<Slot>, b: seq<Slot>)
    requires SlotsDated(a) && SlotsDated(b)
    ensures SlotsDated(a + b)
  {
    assert forall k :: 0 <= k < |a| ==> (a + b)[k] == a[k];
    assert forall k :: 0 <= k < |b| ==> (a + b)[|a| + k] == b[k];
  }

  lemma {:induction false} AllSlotsDated(ms: seq<Movie>)
    requires AllTimed(ms)
    ensures SlotsDated(AllSlots(ms))
    decreases |ms|
  {
    if |ms| > 0 {
      var init, m := ms[..|ms| - 1], ms[|ms| - 1];
      AllTimedInit(ms);
      assert AllSlots(ms) == AllSlots(init) + SlotsOf(m);
      AllSlotsDated(init);
      SlotsDatedAppend(AllSlots(init), SlotsOf(m));
    }
  }

  lemma AddToDateOn(ms: seq<Movie>, x: Slot, d: string)
    requires MoviesOn(ms, d) && DatePart(x.screening.dateTime) == d
    ensures MoviesOn(AddToDate(ms, x), d)
  {
    var r := AddToDate(ms, x);
    match IndexOfTitle(ms, x.movie.title)
    case Some(k) =>
      forall i, j | 0 <= i < |r| && 0 <= j < |r[i].screenings|
        ensures DatePart(r[i].screenings[j].dateTime) == d
      {
        if i != k || j < |ms[k].screenings| {
          assert r[i].screenings[j] == ms[i].screenings[j];
        }
      }
    case None =>
      forall i, j | 0 <= i < |r| && 0 <= j < |r[i].screenings|
        ensures DatePart(r[i].screenings[j].dateTime) == d
      {
        if i < |ms| {
          assert r[i] == ms[i];
        }
      }
  }

  lemma PlaceOn(gs: seq<Group>, x: Slot)
    requires GroupsOnDates(gs) && x.date == DatePart(x.screening.dateTime)
    ensures GroupsOnDates(Place(gs, x))
  {
    match IndexOfDate(gs, x.date)
    case Some(i) =>
      AddToDateOn(gs[i].movies, x, x.date);
    case None =>
      AddToDateOn([], x, x.date);
  }

  lemma {:induction false} CollectOn(xs: seq<Slot>)
    requires SlotsDated(xs)
    ensures GroupsOnDates(Collect(xs))
    decreases |xs|
  {
    if |xs| > 0 {
      var init := xs[..|xs| - 1];
      assert SlotsDated(init) by {
        assert forall k :: 0 <= k < |init| ==> init[k] == xs[k];
      }
      CollectOn(init);
      PlaceOn(Collect(init), xs[|xs| - 1]);
    }
  }

  /** A reordering of movies keeps them all on the same date. */
  lemma PermutedOn(ms: seq<Movie>, ps: seq<Movie>, d: string)
    requires multiset(ps) == multiset(ms) && MoviesOn(ms, d)
    ensures MoviesOn(ps, d)
  {
    forall k | 0 <= k < |ps|
      ensures forall j :: 0 <= j < |ps[k].screenings| ==> DatePart(ps[k].screenings[j].dateTime) == d
    {
      assert ps[k] in multiset(ms);
      var p :| 0 <= p < |ms| && ms[p] == ps[k];
    }
  }

  /** Grouping neither loses nor repeats a screening: the screenings across
      all entries are, with multiplicity, those of the input movies; and
      each lies in the entry of its own date part, which, the dates being
      distinct, is the only entry it can lie in. */
  lemma GroupKeepsScreenings(ms: seq<Movie>)
    requires AllTimed(ms)
    ensures var gs := GroupMoviesByDate(ms).value;
            && SumBags(gs, GroupBag) == SumBags(ms, MovieBag)
            && DistinctDates(gs)
            && forall i, k, j :: 0 <= i < |gs| && 0 <= k < |gs[i].movies| && 0 <= j < |gs[i].movies[k].screenings| ==>
                 DatePart(gs[i].movies[k].screenings[j].dateTime) == gs[i].date
  {
    var xs := AllSlots(ms);
    var cs := Collect(xs);
    var gs := SortAll(cs);
    AllSlotsBag(ms);
    CollectBag(xs);
    SortAllBag(cs);
    GroupMoviesByDateSpec(ms);
    AllSlotsDated(ms);
    CollectOn(xs);
    forall i | 0 <= i < |gs|
      ensures MoviesOn(gs[i].movies, gs[i].date)
    {
      PermutedOn(cs[i].movies, gs[i].movies, cs[i].date);
    }
  }

  /** The weekend flag of a `YYYY-MM-DD` date from year 100 on is whether it
      falls on a Friday or a Saturday. */
  lemma WeekendIsFridayOrSaturday(d: Calendar.Date)
    requires Calendar.Valid(d) && 100 <= d.year <= 9999
    ensures IsWeekend(Calendar.IsoDate(d)) <==> Calendar.WeekDay(Calendar.DayNumber(d)) in {5, 6}
  {
    Calendar.IsoDateNumbers(d);
    Calendar.IsoDateReadBack(d);
  }
}
