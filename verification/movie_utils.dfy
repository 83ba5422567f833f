/** The frontend's record helpers (`utils/movies.ts`) other than the
    grouping: the morning-only test, the earliest screening time, the set
    of screening dates and the number of dates per title. A screening's
    `dateTime` is read as `"<date> <time>"` by splitting at spaces. */
module MovieUtils {
  import opened Wrappers
  import opened Text
  import opened JsNumber
  import opened Model
  import opened Merge
  import opened DateTimeUtils

  /** What reading a property of `undefined` throws. */
  datatype Error = TypeError

  /** `dateTime.split(' ')[0]`. */
  function DatePart(dateTime: string): (r: string)
    ensures ' ' !in r
  {
    SplitSpec(dateTime, ' ');
    Split(dateTime, ' ')[0]
  }

  /** `dateTime.split(' ')[1]`: absent when the text has no space. */
  function TimePart(dateTime: string): (r: Option<string>)
    ensures r.Some? <==> ' ' in dateTime
  {
    var p := Split(dateTime, ' ');
    SplitSpec(dateTime, ' ');
    if |p| == 1 then
      assert Join(p, ' ') == p[0];
      None
    else
      JoinCons(p[0], p[1..], ' ');
      assert [p[0]] + p[1..] == p;
      assert dateTime[|p[0]|] == ' ';
      Some(p[1])
  }

  /** A date-time with a space: its date part is the text before the first
      space and its time part the text between the first and the second. */
  lemma DateTimeParts(date: string, time: string)
    requires ' ' !in date && ' ' !in time
    ensures DatePart(date + " " + time) == date
    ensures TimePart(date + " " + time) == Some(time)
  {
    SplitAtSeparator(date, time, ' ');
    SplitNoSeparator(date, ' ');
    SplitNoSeparator(time, ' ');
  }

  // ---------------------------------------------------------------------------
  // isMorningOnlyMovie
  // ---------------------------------------------------------------------------

  /** The hour of a time text, `time.split(':').map(Number)[0]`. */
  function HourOf(time: string): Num {
    HoursMinutes(time).0
  }

  /** The callback of `every`: `hours < 17`, throwing when the date-time
      has no time part. */
  function HourCheck(dateTime: string): Result<bool, Error> {
    match TimePart(dateTime)
    case None => Err(TypeError)
    case Some(t) => Ok(Less(HourOf(t), Finite(17)))
  }

  /** `screenings.every(...)`, left to right, stopping at the first false
      answer or the first throw. */
  function Every(ss: seq<Screening>): (r: Result<bool, Error>)
    ensures r == Ok(true) <==> forall i :: 0 <= i < |ss| ==> HourCheck(ss[i].dateTime) == Ok(true)
    ensures r.Err? ==> exists i :: 0 <= i < |ss| && TimePart(ss[i].dateTime).None?
    ensures (forall i :: 0 <= i < |ss| ==> TimePart(ss[i].dateTime).Some?) ==> r.Ok?
    decreases |ss|
  {
    if |ss| == 0 then Ok(true)
    else
      assert forall i :: 0 <= i < |ss| - 1 ==> ss[1..][i] == ss[i + 1];
      match HourCheck(ss[0].dateTime)
      case Err(e) => Err(e)
      case Ok(b) => if b then Every(ss[1..]) else Ok(false)
  }

  /** `every` stops at the first screening that is not before 17:00: a
      later screening without a time part is never read. */
  lemma {:induction false} EveryStopsAtFirstFalse(ss: seq<Screening>, i: nat)
    requires i < |ss| && HourCheck(ss[i].dateTime) == Ok(false)
    requires forall j :: 0 <= j < i ==> HourCheck(ss[j].dateTime) == Ok(true)
    ensures Every(ss) == Ok(false)
    decreases i
  {
    if i > 0 {
      assert HourCheck(ss[0].dateTime) == Ok(true);
      assert ss[1..][i - 1] == ss[i];
      EveryStopsAtFirstFalse(ss[1..], i - 1);
    }
  }

  /** `isMorningOnlyMovie`: false without screenings, otherwise whether every
      screening starts before 17:00. */
  function IsMorningOnlyMovie(m: Movie): (r: Result<bool, Error>)
    ensures |m.screenings| == 0 ==> r == Ok(false)
    ensures r == Ok(true) <==> |m.screenings| > 0 && forall i :: 0 <= i < |m.screenings| ==> HourCheck(m.screenings[i].dateTime) == Ok(true)
    ensures r.Err? ==> exists i :: 0 <= i < |m.screenings| && TimePart(m.screenings[i].dateTime).None?
  {
    if |m.screenings| == 0 then Ok(false) else Every(m.screenings)
  }

  /** The morning test is stricter than the evening cutoff: an hour before
      17 is always before evening, but 17:00 to 17:30 are before evening
      without being morning. */
  lemma MorningIsBeforeEvening(time: string, m: nat)
    requires m <= 30
    ensures Less(HourOf(time), Finite(17)) ==> IsBeforeEvening(time)
    ensures IsBeforeEvening(ClockText(17, m)) && !Less(HourOf(ClockText(17, m)), Finite(17))
  {
    ClockTextParts(17, m);
  }

  // ---------------------------------------------------------------------------
  // getEarliestScreeningTime
  // ---------------------------------------------------------------------------

  /** The comparator's answer on read (hour, minute) pairs is negative.
      `Array.prototype.sort` reads a NaN answer as zero, so NaN never puts
      one before the other. */
  predicate PartsBefore(p: (Num, Num), q: (Num, Num)) {
    var c := CompareParts(p, q);
    c.Finite? && c.v < 0
  }

  /** `compareTimeStrings(a, b) < 0`: `a` sorts before `b`. */
  predicate Before(a: string, b: string) {
    PartsBefore(HoursMinutes(a), HoursMinutes(b))
  }

  /** On read numbers, sorting before is being earlier. */
  lemma PartsBeforeIsLexLess(p: (Num, Num), q: (Num, Num))
    ensures Known(p) && Known(q) ==> (PartsBefore(p, q) <==> LexLess(Key(p), Key(q)))
  {
    if Known(p) && Known(q) {
      ComparePartsIsLexicographic(p, q);
    }
  }

  predicate AllKnown(ps: seq<(Num, Num)>) {
    forall j :: 0 <= j < |ps| ==> Known(ps[j])
  }

  /** The position a stable sort brings to the front: the first pair that
      no other pair sorts before. */
  function FirstMin(ps: seq<(Num, Num)>): (i: nat)
    requires |ps| > 0
    ensures i < |ps|
    ensures AllKnown(ps) ==> forall j :: 0 <= j < |ps| ==> !LexLess(Key(ps[j]), Key(ps[i]))
    ensures AllKnown(ps) ==> forall j :: 0 <= j < i ==> LexLess(Key(ps[i]), Key(ps[j]))
    decreases |ps|
  {
    if |ps| == 1 then 0
    else
      var init := ps[..|ps| - 1];
      var k := FirstMin(init);
      var last := |ps| - 1;
      assert forall j :: 0 <= j < |init| ==> init[j] == ps[j];
      PartsBeforeIsLexLess(ps[last], ps[k]);
      if PartsBefore(ps[last], ps[k]) then last else k
  }

  /** Sorting before is a strict order on every reading, NaN included: a
      NaN hour sorts before nothing and nothing sorts before it, and a NaN
      minute only matters against the same hour. */
  lemma PartsBeforeStrict(a: (Num, Num), b: (Num, Num), c: (Num, Num))
    ensures !PartsBefore(a, a)
    ensures PartsBefore(a, b) && PartsBefore(b, c) ==> PartsBefore(a, c)
  {
  }

  /** Nothing sorts before the pair `FirstMin` picks, whatever reads as NaN:
      the scan only moves on to a pair that sorts before the current one,
      and sorting before is transitive. */
  lemma {:induction false} FirstMinIsMinimal(ps: seq<(Num, Num)>)
    requires |ps| > 0
    ensures forall j :: 0 <= j < |ps| ==> !PartsBefore(ps[j], ps[FirstMin(ps)])
    decreases |ps|
  {
    if |ps| > 1 {
      var init := ps[..|ps| - 1];
      var k := FirstMin(init);
      var last := |ps| - 1;
      FirstMinIsMinimal(init);
      assert forall j :: 0 <= j < |init| ==> init[j] == ps[j];
      forall j | 0 <= j < |ps| ensures !PartsBefore(ps[j], ps[FirstMin(ps)]) {
        PartsBeforeStrict(ps[j], ps[last], ps[k]);
      }
    }
  }

  /** Each screening's time part, `undefined` included. */
  function TimeParts(ss: seq<Screening>): (r: seq<Option<string>>)
    ensures |r| == |ss| && forall i :: 0 <= i < |ss| ==> r[i] == TimePart(ss[i].dateTime)
  {
    seq(|ss|, i requires 0 <= i < |ss| => TimePart(ss[i].dateTime))
  }

  /** Each time's (hour, minute) reading. */
  function PartsOf(ts: seq<string>): (r: seq<(Num, Num)>)
    ensures |r| == |ts| && forall i :: 0 <= i < |ts| ==> r[i] == HoursMinutes(ts[i])
  {
    seq(|ts|, i requires 0 <= i < |ts| => HoursMinutes(ts[i]))
  }

  /** `getEarliestScreeningTime`: the front of the times sorted by the
      comparator, where `undefined` times sort last; absent when no
      screening has a time part. */
  function GetEarliestScreeningTime(ss: seq<Screening>): Option<string> {
    var ts := Somes(TimeParts(ss));
    if |ts| == 0 then None else Some(ts[FirstMin(PartsOf(ts))])
  }

  /** The earliest time is the time of one of the screenings, and absent
      only when no screening has one. */
  lemma EarliestPresence(ss: seq<Screening>)
    ensures var r := GetEarliestScreeningTime(ss);
            && (r.Some? <==> exists i :: 0 <= i < |ss| && TimePart(ss[i].dateTime).Some?)
            && (r.Some? ==> exists i :: 0 <= i < |ss| && TimePart(ss[i].dateTime) == r)
  {
    var xs := TimeParts(ss);
    var ts := Somes(xs);
    if |ts| > 0 {
      var m := FirstMin(PartsOf(ts));
      assert exists i :: 0 <= i < |xs| && xs[i] == Some(ts[m]);
    } else {
      forall i | 0 <= i < |ss| ensures TimePart(ss[i].dateTime).None? {
        if xs[i].Some? {
          SomesComplete(xs, i);
          assert false;
        }
      }
    }
  }

  /** The earliest time is the time of one of the screenings, absent only
      when no screening has one, and no screening's time is earlier once
      all of them read as numbers. */
  lemma EarliestIsMinimal(ss: seq<Screening>)
    ensures var r := GetEarliestScreeningTime(ss);
            && (r.Some? <==> exists i :: 0 <= i < |ss| && TimePart(ss[i].dateTime).Some?)
            && (r.Some? ==> exists i :: 0 <= i < |ss| && TimePart(ss[i].dateTime) == r)
    ensures var r := GetEarliestScreeningTime(ss);
            (forall i :: 0 <= i < |ss| && TimePart(ss[i].dateTime).Some? ==> Readable(TimePart(ss[i].dateTime).value)) ==>
            r.Some? ==> forall i :: 0 <= i < |ss| && TimePart(ss[i].dateTime).Some? ==>
                          !LexLess(TimeKey(TimePart(ss[i].dateTime).value), TimeKey(r.value))
  {
    EarliestPresence(ss);
    EarliestReadableIsMinimal(ss);
  }

  /** When the earliest time reads as numbers, no screening's time that
      reads as numbers is earlier, whatever the other times are. */
  lemma EarliestReadableIsMinimal(ss: seq<Screening>)
    ensures var r := GetEarliestScreeningTime(ss);
            r.Some? && Readable(r.value) ==>
              forall i :: 0 <= i < |ss| && TimePart(ss[i].dateTime).Some? && Readable(TimePart(ss[i].dateTime).value) ==>
                !LexLess(TimeKey(TimePart(ss[i].dateTime).value), TimeKey(r.value))
  {
    var xs := TimeParts(ss);
    var ts := Somes(xs);
    if |ts| > 0 {
      var ps := PartsOf(ts);
      var m := FirstMin(ps);
      FirstMinIsMinimal(ps);
      forall i | 0 <= i < |ss| && TimePart(ss[i].dateTime).Some? && Readable(TimePart(ss[i].dateTime).value) && Readable(ts[m])
        ensures !LexLess(TimeKey(TimePart(ss[i].dateTime).value), TimeKey(ts[m]))
      {
        assert xs[i].Some?;
        SomesComplete(xs, i);
        var k :| 0 <= k < |ts| && ts[k] == xs[i].value;
        assert !PartsBefore(ps[k], ps[m]);
        PartsBeforeIsLexLess(ps[k], ps[m]);
      }
    }
  }

  // ---------------------------------------------------------------------------
  // getAllDatesFromMovies, getMovieDatesCount
  // ---------------------------------------------------------------------------

  /** The date parts of the screenings, added one by one to a set. */
  function DatesOf(ss: seq<Screening>): set<string>
    decreases |ss|
  {
    if |ss| == 0 then {} else DatesOf(ss[..|ss| - 1]) + {DatePart(ss[|ss| - 1].dateTime)}
  }

  /** `getAllDatesFromMovies`: every movie's screening dates, added to one set. */
  function GetAllDatesFromMovies(ms: seq<Movie>): set<string>
    decreases |ms|
  {
    if |ms| == 0 then {} else GetAllDatesFromMovies(ms[..|ms| - 1]) + DatesOf(ms[|ms| - 1].screenings)
  }

  /** A date is in the set iff some screening of some movie falls on it. */
  predicate ScreenedOn(ms: seq<Movie>, d: string) {
    exists i, j :: 0 <= i < |ms| && 0 <= j < |ms[i].screenings| && DatePart(ms[i].screenings[j].dateTime) == d
  }

  lemma {:induction false} DatesOfSpec(ss: seq<Screening>)
    ensures forall d :: d in DatesOf(ss) <==> exists j :: 0 <= j < |ss| && DatePart(ss[j].dateTime) == d
    decreases |ss|
  {
    if |ss| > 0 {
      var init := ss[..|ss| - 1];
      DatesOfSpec(init);
      assert forall j :: 0 <= j < |init| ==> init[j] == ss[j];
    }
  }

  /** The set holds exactly the dates some screening falls on. */
  lemma {:induction false} AllDatesSpec(ms: seq<Movie>)
    ensures forall d :: d in GetAllDatesFromMovies(ms) <==> ScreenedOn(ms, d)
    decreases |ms|
  {
    if |ms| > 0 {
      var init, m := ms[..|ms| - 1], ms[|ms| - 1];
      AllDatesSpec(init);
      DatesOfSpec(m.screenings);
      assert forall i :: 0 <= i < |init| ==> init[i] == ms[i];
      forall d ensures d in GetAllDatesFromMovies(ms) <==> ScreenedOn(ms, d) {
        if ScreenedOn(ms, d) {
          var i, j :| 0 <= i < |ms| && 0 <= j < |ms[i].screenings| && DatePart(ms[i].screenings[j].dateTime) == d;
          if i < |init| {
            assert ScreenedOn(init, d);
          }
        }
        if d in GetAllDatesFromMovies(init) {
          var i, j :| 0 <= i < |init| && 0 <= j < |init[i].screenings| && DatePart(init[i].screenings[j].dateTime) == d;
          assert ms[i] == init[i];
        }
      }
    }
  }

  /** `datesByMovie`: for each title, in a set, the dates of its
      screenings; a title without screenings gets an empty set. */
  function DatesByTitle(ms: seq<Movie>): map<string, set<string>>
    decreases |ms|
  {
    if |ms| == 0 then map[]
    else
      var acc := DatesByTitle(ms[..|ms| - 1]);
      var m := ms[|ms| - 1];
      var known := if m.title in acc then acc[m.title] else {};
      acc[m.title := known + DatesOf(m.screenings)]
  }

  /** `getMovieDatesCount`: each title's number of distinct dates. */
  function GetMovieDatesCount(ms: seq<Movie>): (r: map<string, nat>)
    ensures r.Keys == DatesByTitle(ms).Keys
  {
    var byTitle := DatesByTitle(ms);
    map t | t in byTitle :: |byTitle[t]|
  }

  /** The dates of the screenings of every movie titled `t`. */
  predicate TitleScreenedOn(ms: seq<Movie>, t: string, d: string) {
    exists i, j :: 0 <= i < |ms| && ms[i].title == t && 0 <= j < |ms[i].screenings| && DatePart(ms[i].screenings[j].dateTime) == d
  }

  /** Every title appears, even one without screenings, and its set holds
      exactly the dates on which some movie of that title is screened. */
  lemma {:induction false} DatesByTitleSpec(ms: seq<Movie>)
    ensures DatesByTitle(ms).Keys == TitleSet(ms)
    ensures forall t, d :: t in DatesByTitle(ms) ==> (d in DatesByTitle(ms)[t] <==> TitleScreenedOn(ms, t, d))
    decreases |ms|
  {
    if |ms| > 0 {
      var init, m := ms[..|ms| - 1], ms[|ms| - 1];
      assert ms == init + [m];
      DatesByTitleSpec(init);
      DatesOfSpec(m.screenings);
      TitleSetAppend(init, m);
      assert forall i :: 0 <= i < |init| ==> init[i] == ms[i];
      var acc, r := DatesByTitle(init), DatesByTitle(ms);
      forall t, d | t in r ensures d in r[t] <==> TitleScreenedOn(ms, t, d) {
        TitleScreenedOnSnoc(init, m, t, d);
      }
    }
  }

  /** A title is screened on a date in `init + [m]` iff it was in `init` or
      `m` carries the title and a screening on that date. */
  lemma TitleScreenedOnSnoc(init: seq<Movie>, m: Movie, t: string, d: string)
    ensures TitleScreenedOn(init + [m], t, d) <==>
              TitleScreenedOn(init, t, d) || (m.title == t && d in DatesOf(m.screenings))
  {
    var ms := init + [m];
    DatesOfSpec(m.screenings);
    if TitleScreenedOn(ms, t, d) {
      var i, j :| 0 <= i < |ms| && ms[i].title == t && 0 <= j < |ms[i].screenings| && DatePart(ms[i].screenings[j].dateTime) == d;
      if i < |init| {
        assert ms[i] == init[i];
      }
    }
    if TitleScreenedOn(init, t, d) {
      var i, j :| 0 <= i < |init| && init[i].title == t && 0 <= j < |init[i].screenings| && DatePart(init[i].screenings[j].dateTime) == d;
      assert ms[i] == init[i];
    }
    if m.title == t && d in DatesOf(m.screenings) {
      var j :| 0 <= j < |m.screenings| && DatePart(m.screenings[j].dateTime) == d;
      assert ms[|init|] == m;
    }
  }

  /** The count of a title is the number of distinct dates its movies are
      screened on. */
  lemma MovieDatesCountSpec(ms: seq<Movie>, t: string)
    ensures t in GetMovieDatesCount(ms) <==> t in TitleSet(ms)
    ensures t in GetMovieDatesCount(ms) ==>
              GetMovieDatesCount(ms)[t] == |set d | d in GetAllDatesFromMovies(ms) && TitleScreenedOn(ms, t, d)|
  {
    DatesByTitleSpec(ms);
    AllDatesSpec(ms);
    var byTitle := DatesByTitle(ms);
    if t in byTitle {
      assert byTitle[t] == set d | d in GetAllDatesFromMovies(ms) && TitleScreenedOn(ms, t, d) by {
        forall d | d in byTitle[t] ensures d in GetAllDatesFromMovies(ms) {
          var i, j :| 0 <= i < |ms| && ms[i].title == t && 0 <= j < |ms[i].screenings| && DatePart(ms[i].screenings[j].dateTime) == d;
          assert ScreenedOn(ms, d);
        }
      }
    }
  }
}
