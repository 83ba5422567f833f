/** The proleptic Gregorian calendar as ECMAScript's `Date` computes it:
    day numbers counted from 1970-01-01 (`DayFromYear`, `MakeDay`), the
    weekday rule, stepping a calendar date forward by whole days (what
    `setDate(getDate() + i)` does), the `YYYY-MM-DD` prefix of
    `toISOString()`, and the date the frontend builds with
    `new Date(year, month - 1, day)`. Time zones are not modelled: local
    time is taken to be UTC. */
module Calendar {
  import opened Wrappers
  import opened Text
  import opened JsNumber

  /** A calendar date; `month` is 1-based as in the ISO text. */
  datatype Date = Date(year: int, month: int, day: int)

  predicate IsLeap(y: int) {
    (y % 4 == 0 && y % 100 != 0) || y % 400 == 0
  }

  function DaysInYear(y: int): int {
    if IsLeap(y) then 366 else 365
  }

  function DaysInMonth(y: int, m: int): (n: int)
    requires 1 <= m <= 12
    ensures 28 <= n <= 31
  {
    if m == 2 then (if IsLeap(y) then 29 else 28)
    else if m == 4 || m == 6 || m == 9 || m == 11 then 30
    else 31
  }

  predicate Valid(d: Date) {
    1 <= d.month <= 12 && 1 <= d.day <= DaysInMonth(d.year, d.month)
  }

  // ---------------------------------------------------------------------------
  // Day numbers
  // ---------------------------------------------------------------------------

  /** ECMAScript `DayFromYear`: the day number of January 1 of year `y`.
      Dafny's `/` by a positive constant is the floor the standard uses. */
  function DayFromYear(y: int): int {
    365 * (y - 1970) + (y - 1969) / 4 - (y - 1901) / 100 + (y - 1601) / 400
  }

  /** Floor division by `n` steps up by one exactly where `n` divides the next value. */
  lemma DivStep(a: int, n: int)
    requires n == 4 || n == 100 || n == 400
    ensures (a + 1) / n == a / n + (if (a + 1) % n == 0 then 1 else 0)
  {
    var q, r := a / n, a % n;
    assert a == n * q + r && 0 <= r < n;
    if r + 1 == n {
      assert a + 1 == n * (q + 1);
    } else {
      assert a + 1 == n * q + (r + 1);
    }
  }

  /** Consecutive years start `DaysInYear` days apart. */
  lemma DayFromYearNext(y: int)
    ensures DayFromYear(y + 1) == DayFromYear(y) + DaysInYear(y)
  {
    DivStep(y - 1969, 4);
    DivStep(y - 1901, 100);
    DivStep(y - 1601, 400);
    LeapShift(y);
  }

  /** The leap-year tests read the same on `y` and on `y` shifted by a
      whole number of their cycles. */
  lemma LeapShift(y: int)
    ensures (y - 1968) % 4 == 0 <==> y % 4 == 0
    ensures (y - 1900) % 100 == 0 <==> y % 100 == 0
    ensures (y - 1600) % 400 == 0 <==> y % 400 == 0
  {
    assert (y - 1968) % 4 == y % 4;
    assert (y - 1900) % 100 == y % 100;
    assert (y - 1600) % 400 == y % 400;
  }

  /** Days in the months before 0-based month `m0` of year `y`. */
  function MonthStart(y: int, m0: int): (n: int)
    requires 0 <= m0 <= 12
    ensures 0 <= n <= 31 * m0
    decreases m0
  {
    if m0 == 0 then 0 else MonthStart(y, m0 - 1) + DaysInMonth(y, m0)
  }

  /** The twelve months fill the year exactly. */
  lemma MonthsFillYear(y: int)
    ensures MonthStart(y, 11) + 31 == DaysInYear(y)
  {
    assert MonthStart(y, 1) == 31;
    assert MonthStart(y, 2) == 31 + DaysInMonth(y, 2);
    assert MonthStart(y, 6) == MonthStart(y, 2) + 122;
    assert MonthStart(y, 11) == MonthStart(y, 6) + 153;
  }

  /** ECMAScript `MakeDay` on integer arguments: a month outside 0..11 carries
      into the year, and a day outside the month runs into the neighbouring
      months. */
  function MakeDay(y: int, m0: int, d: int): int {
    var ym := y + m0 / 12;
    var mn := m0 % 12;
    DayFromYear(ym) + MonthStart(ym, mn) + d - 1
  }

  /** The day number of a calendar date with its month in range. */
  function DayNumber(d: Date): int
    requires 1 <= d.month <= 12
  {
    DayFromYear(d.year) + MonthStart(d.year, d.month - 1) + d.day - 1
  }

  /** For a month in range `MakeDay` carries nothing: it is the day number. */
  lemma MakeDayInRange(d: Date)
    requires 1 <= d.month <= 12
    ensures MakeDay(d.year, d.month - 1, d.day) == DayNumber(d)
  {
    var m0 := d.month - 1;
    assert m0 / 12 == 0 && m0 % 12 == m0;
  }

  /** ECMAScript `WeekDay`: 0 is Sunday; 1970-01-01 was a Thursday. */
  function WeekDay(t: int): (w: int)
    ensures 0 <= w < 7
  {
    (t + 4) % 7
  }

  // ---------------------------------------------------------------------------
  // Stepping forward by days
  // ---------------------------------------------------------------------------

  /** The following calendar date. */
  function NextDay(d: Date): (r: Date)
    requires Valid(d)
    ensures Valid(r) && DayNumber(r) == DayNumber(d) + 1
  {
    if d.day < DaysInMonth(d.year, d.month) then
      NextInMonth(d); Date(d.year, d.month, d.day + 1)
    else if d.month < 12 then
      NextMonth(d); Date(d.year, d.month + 1, 1)
    else
      NextYear(d); Date(d.year + 1, 1, 1)
  }

  lemma NextInMonth(d: Date)
    requires Valid(d) && d.day < DaysInMonth(d.year, d.month)
    ensures DayNumber(Date(d.year, d.month, d.day + 1)) == DayNumber(d) + 1
  {
  }

  lemma NextMonth(d: Date)
    requires Valid(d) && d.day == DaysInMonth(d.year, d.month) && d.month < 12
    ensures DayNumber(Date(d.year, d.month + 1, 1)) == DayNumber(d) + 1
  {
    assert MonthStart(d.year, d.month) == MonthStart(d.year, d.month - 1) + DaysInMonth(d.year, d.month);
  }

  lemma NextYear(d: Date)
    requires Valid(d) && d.day == DaysInMonth(d.year, d.month) && d.month == 12
    ensures DayNumber(Date(d.year + 1, 1, 1)) == DayNumber(d) + 1
  {
    DayFromYearNext(d.year);
    MonthsFillYear(d.year);
  }

  /** The calendar date `n` days after `d`: `setDate(getDate() + n)`. */
  function AddDays(d: Date, n: nat): (r: Date)
    requires Valid(d)
    ensures Valid(r) && DayNumber(r) == DayNumber(d) + n
    decreases n
  {
    if n == 0 then d else NextDay(AddDays(d, n - 1))
  }

  /** A valid date is determined by its day number. */
  lemma DayNumberInjective(a: Date, b: Date)
    requires Valid(a) && Valid(b) && DayNumber(a) == DayNumber(b)
    ensures a == b
  {
    SameYear(a, b);
    SameMonth(a, b);
  }

  lemma SameYear(a: Date, b: Date)
    requires Valid(a) && Valid(b) && DayNumber(a) == DayNumber(b)
    ensures a.year == b.year
  {
    YearBounds(a);
    YearBounds(b);
    if a.year < b.year {
      DayFromYearMonotone(a.year + 1, b.year);
    } else if b.year < a.year {
      DayFromYearMonotone(b.year + 1, a.year);
    }
  }

  lemma SameMonth(a: Date, b: Date)
    requires Valid(a) && Valid(b) && a.year == b.year && DayNumber(a) == DayNumber(b)
    ensures a.month == b.month
  {
    if a.month < b.month {
      MonthOrder(a, b);
    } else if b.month < a.month {
      MonthOrder(b, a);
    }
  }

  /** Within a year, a later month has later day numbers. */
  lemma MonthOrder(a: Date, b: Date)
    requires Valid(a) && Valid(b) && a.year == b.year && a.month < b.month
    ensures DayNumber(a) < DayNumber(b)
  {
    MonthStartMonotone(a.year, a.month, b.month - 1);
  }

  /** A valid date's day number lies within its year. */
  lemma YearBounds(d: Date)
    requires Valid(d)
    ensures DayFromYear(d.year) <= DayNumber(d) < DayFromYear(d.year + 1)
  {
    DayFromYearNext(d.year);
    MonthStartMonotone(d.year, d.month, 12);
    MonthsFillYear(d.year);
  }

  lemma {:induction false} DayFromYearMonotone(a: int, b: int)
    requires a <= b
    ensures DayFromYear(a) <= DayFromYear(b)
    decreases b - a
  {
    if a < b {
      DayFromYearNext(a);
      DayFromYearMonotone(a + 1, b);
    }
  }

  /** A month's days end where the next month starts. */
  lemma {:induction false} MonthStartMonotone(y: int, m0: int, m1: int)
    requires 1 <= m0 <= m1 <= 12
    ensures MonthStart(y, m0 - 1) + DaysInMonth(y, m0) <= MonthStart(y, m1)
    decreases m1 - m0
  {
    if m0 < m1 {
      MonthStartMonotone(y, m0, m1 - 1);
    }
  }

  /** The sample page date is a Saturday. */
  lemma SampleDate()
    ensures DayNumber(Date(2025, 1, 25)) == 20113
    ensures WeekDay(DayNumber(Date(2025, 1, 25))) == 6
  {
  }

  // ---------------------------------------------------------------------------
  // ISO text
  // ---------------------------------------------------------------------------

  /** The year as `toISOString` writes it: four digits within 0..9999,
      otherwise a sign and six digits. */
  function IsoYear(y: int): string {
    if 0 <= y <= 9999 then PadNat(y, 4)
    else if y < 0 then "-" + PadNat(-y, 6)
    else "+" + PadNat(y, 6)
  }

  /** `YYYY-MM-DD`. */
  function IsoDate(d: Date): string
    requires Valid(d)
  {
    IsoYear(d.year) + "-" + PadNat(d.month, 2) + "-" + PadNat(d.day, 2)
  }

  /** `toISOString().split('T')[0]`: the text before the first 'T' of the
      full timestamp; the date part has none, so it comes back whole. */
  function IsoDatePart(d: Date, time: string): (r: string)
    requires Valid(d)
    ensures 0 <= d.year <= 9999 ==> r == IsoDate(d)
  {
    var s := IsoDate(d) + "T" + time;
    var parts := Split(s, 'T');
    if 0 <= d.year <= 9999 then
      IsoDateHasNoT(d);
      SplitFirst(IsoDate(d), time, 'T');
      parts[0]
    else parts[0]
  }

  /** Digit strings hold no letters or dashes. */
  lemma DigitsFree(s: string, c: char)
    requires AllDigits(s) && !IsDigit(c)
    ensures c !in s
  {
    forall i | 0 <= i < |s| ensures s[i] != c {
      assert IsDigit(s[i]);
    }
  }

  lemma IsoDateHasNoT(d: Date)
    requires Valid(d) && 0 <= d.year <= 9999
    ensures 'T' !in IsoDate(d)
  {
    var a, b, c := PadNat(d.year, 4), PadNat(d.month, 2), PadNat(d.day, 2);
    DigitsFree(a, 'T');
    DigitsFree(b, 'T');
    DigitsFree(c, 'T');
    var s := IsoDate(d);
    assert s == a + "-" + b + "-" + c;
    forall i | 0 <= i < |s| ensures s[i] != 'T' {
      if i < |a| { assert s[i] == a[i]; }
      else if i == |a| { }
      else if i < |a| + 1 + |b| { assert s[i] == b[i - |a| - 1]; }
      else if i == |a| + 1 + |b| { }
      else { assert s[i] == c[i - |a| - 2 - |b|]; }
    }
  }

  /** The first piece of `x + [sep] + y` is `x` when `x` holds no separator. */
  lemma SplitFirst(x: string, y: string, sep: char)
    requires sep !in x
    ensures Split(x + [sep] + y, sep)[0] == x
  {
    SplitAtSeparator(x, y, sep);
    SplitNoSeparator(x, sep);
  }

  /** The three dash-separated pieces of an ISO date with a four-digit year. */
  lemma IsoDatePieces(d: Date)
    requires Valid(d) && 0 <= d.year <= 9999
    ensures Split(IsoDate(d), '-') == [PadNat(d.year, 4), PadNat(d.month, 2), PadNat(d.day, 2)]
  {
    var a, b, c := PadNat(d.year, 4), PadNat(d.month, 2), PadNat(d.day, 2);
    DigitsFree(a, '-');
    DigitsFree(b, '-');
    DigitsFree(c, '-');
    JoinThree(a, b, c, '-');
    assert IsoDate(d) == Join([a, b, c], '-');
    SplitJoin([a, b, c], '-');
  }

  // ---------------------------------------------------------------------------
  // The frontend's `new Date(year, month - 1, day)`
  // ---------------------------------------------------------------------------

  /** The largest day number a `Date` may hold (TimeClip's 8.64e15 ms). */
  const MaxDay: int := 100_000_000

  /** The day number of `new Date(year, month - 1, day)` from numbers read
      out of text: absent (an Invalid Date) when any argument is NaN or the
      result is out of range; a year in 0..99 means 1900 plus that year. */
  function JsLocalDay(year: Num, month: Num, day: Num): (r: Option<int>)
    ensures r.Some? ==> year.Finite? && month.Finite? && day.Finite? && -MaxDay <= r.value <= MaxDay
    ensures year.Finite? && month.Finite? && day.Finite? && !(0 <= year.v <= 99) ==>
              (r.Some? <==> -MaxDay <= MakeDay(year.v, month.v - 1, day.v) <= MaxDay)
  {
    if year.NaN? || month.NaN? || day.NaN? then None
    else
      var y := if 0 <= year.v <= 99 then 1900 + year.v else year.v;
      var t := MakeDay(y, month.v - 1, day.v);
      if -MaxDay <= t <= MaxDay then Some(t) else None
  }

  /** Day numbers of dates in years 100..9999 stay far inside the range. */
  lemma DayNumberInRange(d: Date)
    requires Valid(d) && 100 <= d.year <= 9999
    ensures -MaxDay <= DayNumber(d) <= MaxDay
  {
    YearBounds(d);
  }

  /** The frontend's reading of the three ISO pieces: the year, month and
      day numbers come back. */
  lemma IsoDateNumbers(d: Date)
    requires Valid(d) && 0 <= d.year <= 9999
    ensures var p := Split(IsoDate(d), '-');
            && |p| == 3
            && ToNumber(p[0]) == Finite(d.year)
            && ToNumber(p[1]) == Finite(d.month)
            && ToNumber(p[2]) == Finite(d.day)
  {
    IsoDatePieces(d);
    ToNumberPadded(d.year, 4);
    ToNumberPadded(d.month, 2);
    ToNumberPadded(d.day, 2);
  }

  /** Reading an ISO date back the frontend's way gives its day number, for
      years 100..9999; years 0..99 are read as 1900..1999. */
  lemma IsoDateReadBack(d: Date)
    requires Valid(d) && 0 <= d.year <= 9999
    ensures 100 <= d.year ==> JsLocalDay(Finite(d.year), Finite(d.month), Finite(d.day)) == Some(DayNumber(d))
    ensures d.year < 100 && Valid(Date(1900 + d.year, d.month, d.day)) ==>
              JsLocalDay(Finite(d.year), Finite(d.month), Finite(d.day)) == Some(DayNumber(Date(1900 + d.year, d.month, d.day)))
  {
    if 100 <= d.year {
      MakeDayInRange(d);
      DayNumberInRange(d);
    } else if Valid(Date(1900 + d.year, d.month, d.day)) {
      MakeDayInRange(Date(1900 + d.year, d.month, d.day));
      DayNumberInRange(Date(1900 + d.year, d.month, d.day));
    }
  }

  /** Two valid dates with four-digit years have the same ISO text only if
      they are the same date. */
  lemma IsoDateInjective(a: Date, b: Date)
    requires Valid(a) && 0 <= a.year <= 9999
    requires Valid(b) && 0 <= b.year <= 9999
    requires IsoDate(a) == IsoDate(b)
    ensures a == b
  {
    IsoDateNumbers(a);
    IsoDateNumbers(b);
  }

  // ---------------------------------------------------------------------------
  // The controllers' date list
  // ---------------------------------------------------------------------------

  /** `Array.from({ length: count }, (_, i) => ...)` where entry `i` is a
      copy of `today` moved on by `i` days and written as
      `toISOString().split('T')[0]`; `time` is the time-of-day part of the
      timestamp, which the split drops. */
  function UpcomingDates(today: Date, count: nat, time: string): (r: seq<string>)
    requires Valid(today)
    ensures |r| == count
  {
    seq(count, i requires 0 <= i < count => IsoDatePart(AddDays(today, i), time))
  }

  /** Within four-digit years the list is `count` consecutive calendar days
      from `today`, written `YYYY-MM-DD`, with no date twice. */
  lemma UpcomingDatesConsecutive(today: Date, count: nat, time: string)
    requires Valid(today)
    requires forall i :: 0 <= i < count ==> 0 <= AddDays(today, i).year <= 9999
    ensures var r := UpcomingDates(today, count, time);
            && (forall i :: 0 <= i < count ==>
                  r[i] == IsoDate(AddDays(today, i))
                  && DayNumber(AddDays(today, i)) == DayNumber(today) + i)
            && (forall i, j :: 0 <= i < j < count ==> r[i] != r[j])
  {
    var r := UpcomingDates(today, count, time);
    forall i, j | 0 <= i < j < count ensures r[i] != r[j] {
      var a, b := AddDays(today, i), AddDays(today, j);
      if IsoDate(a) == IsoDate(b) {
        IsoDateInjective(a, b);
      }
    }
  }
}
