/** The frontend's time and date helpers (`utils/dateTime.ts`): the evening
    cutoff, the time comparator, and the Hebrew weekday label. Numbers are read
    with `Number`, so malformed text gives NaN and a missing piece gives
    `undefined`, which behaves as NaN in every comparison and subtraction
    used here. */
module DateTimeUtils {
  import opened Wrappers
  import opened Text
  import opened JsNumber
  import opened Calendar

  /** `const [hours, minutes] = s.split(':').map(Number)`. */
  function HoursMinutes(s: string): (Num, Num) {
    var p := Split(s, ':');
    (ToNumber(p[0]), if |p| > 1 then ToNumber(p[1]) else NaN)
  }

  /** `isBeforeEvening`: before 17:30 inclusive. */
  predicate IsBeforeEvening(s: string) {
    var hm := HoursMinutes(s);
    Less(hm.0, Finite(17)) || (StrictEquals(hm.0, Finite(17)) && LessEq(hm.1, Finite(30)))
  }

  /** A two-digit `HH:MM` text. */
  function ClockText(h: nat, m: nat): string {
    PadNat(h, 2) + ":" + PadNat(m, 2)
  }

  lemma ClockTextParts(h: nat, m: nat)
    ensures HoursMinutes(ClockText(h, m)) == (Finite(h), Finite(m))
  {
    var a, b := PadNat(h, 2), PadNat(m, 2);
    DigitsFree(a, ':');
    DigitsFree(b, ':');
    SplitAtSeparator(a, b, ':');
    SplitNoSeparator(a, ':');
    SplitNoSeparator(b, ':');
    ToNumberPadded(h, 2);
    ToNumberPadded(m, 2);
  }

  /** For a clock time, "before evening" means no later than 17:30, that is
      at most 1050 minutes after midnight. */
  lemma IsBeforeEveningClock(h: nat, m: nat)
    requires m < 60
    ensures IsBeforeEvening(ClockText(h, m)) <==> 60 * h + m <= 17 * 60 + 30
  {
    ClockTextParts(h, m);
  }

  /** An hour without minutes compares its missing minutes as NaN, so it is
      before evening only when the hour is before 17: "17" is not, although
      17:00 is. */
  lemma IsBeforeEveningHourOnly(h: nat)
    ensures IsBeforeEvening(PadNat(h, 2)) <==> h < 17
    ensures h == 17 ==> IsBeforeEvening(ClockText(h, 0))
  {
    var a := PadNat(h, 2);
    DigitsFree(a, ':');
    SplitNoSeparator(a, ':');
    ToNumberPadded(h, 2);
    assert HoursMinutes(a) == (Finite(h), NaN);
    IsBeforeEveningClock(h, 0);
  }

  /** Text whose hour does not read as a number is never before evening. */
  lemma IsBeforeEveningUnreadable(s: string)
    requires HoursMinutes(s).0.NaN?
    ensures !IsBeforeEvening(s)
  {
  }

  /** The comparator on already-read (hour, minute) pairs: the hour
      difference when the hours differ (`!==`, so a NaN hour always
      differs), else the minute difference. */
  function CompareParts(a: (Num, Num), b: (Num, Num)): (r: Num)
    ensures r.Finite? ==> a.0.Finite? && b.0.Finite?
  {
    if !StrictEquals(a.0, b.0) then Minus(a.0, b.0) else Minus(a.1, b.1)
  }

  /** `compareTimeStrings`. */
  function CompareTimeStrings(a: string, b: string): Num {
    CompareParts(HoursMinutes(a), HoursMinutes(b))
  }

  /** The comparator is antisymmetric on every input, NaN included. */
  lemma CompareAntisymmetric(a: string, b: string)
    ensures CompareTimeStrings(a, b) == Negate(CompareTimeStrings(b, a))
  {
    ComparePartsAntisymmetric(HoursMinutes(a), HoursMinutes(b));
  }

  lemma ComparePartsAntisymmetric(a: (Num, Num), b: (Num, Num))
    ensures CompareParts(a, b) == Negate(CompareParts(b, a))
  {
  }

  /** A time whose hour and minute both read as numbers compares equal to
      itself; one that does not compares as NaN even with itself. */
  lemma CompareReflexive(a: string)
    ensures CompareTimeStrings(a, a) == Finite(0) <==> Readable(a)
  {
    var ha := HoursMinutes(a);
    assert CompareParts(ha, ha) == Finite(0) <==> ha.0.Finite? && ha.1.Finite?;
  }

  /** An (hour, minute) pair of which both read as numbers. */
  predicate Known(p: (Num, Num)) {
    p.0.Finite? && p.1.Finite?
  }

  function Key(p: (Num, Num)): (int, int)
    requires Known(p)
  {
    (p.0.v, p.1.v)
  }

  /** Texts whose hour and minute both read as numbers. */
  predicate Readable(s: string) {
    Known(HoursMinutes(s))
  }

  /** Hour first, then minute. */
  predicate LexLess(a: (int, int), b: (int, int)) {
    a.0 < b.0 || (a.0 == b.0 && a.1 < b.1)
  }

  function TimeKey(s: string): (int, int)
    requires Readable(s)
  {
    Key(HoursMinutes(s))
  }

  /** On read numbers the comparator is the order of (hour, minute). */
  lemma ComparePartsIsLexicographic(a: (Num, Num), b: (Num, Num))
    requires Known(a) && Known(b)
    ensures CompareParts(a, b).Finite?
    ensures CompareParts(a, b).v < 0 <==> LexLess(Key(a), Key(b))
    ensures CompareParts(a, b).v == 0 <==> Key(a) == Key(b)
  {
  }

  /** On readable texts the comparator is the order of (hour, minute). */
  lemma CompareIsLexicographic(a: string, b: string)
    requires Readable(a) && Readable(b)
    ensures CompareTimeStrings(a, b).Finite?
    ensures CompareTimeStrings(a, b).v < 0 <==> LexLess(TimeKey(a), TimeKey(b))
    ensures CompareTimeStrings(a, b).v == 0 <==> TimeKey(a) == TimeKey(b)
  {
    ComparePartsIsLexicographic(HoursMinutes(a), HoursMinutes(b));
  }

  /** On clock times the sign of the comparison is chronological order. */
  lemma CompareChronological(h1: nat, m1: nat, h2: nat, m2: nat)
    requires m1 < 60 && m2 < 60
    ensures var c := CompareTimeStrings(ClockText(h1, m1), ClockText(h2, m2));
            && c.Finite?
            && (c.v < 0 <==> 60 * h1 + m1 < 60 * h2 + m2)
            && (c.v == 0 <==> 60 * h1 + m1 == 60 * h2 + m2)
            && (c.v > 0 <==> 60 * h1 + m1 > 60 * h2 + m2)
  {
    ClockTextParts(h1, m1);
    ClockTextParts(h2, m2);
  }

  // ---------------------------------------------------------------------------
  // The Hebrew weekday label
  // ---------------------------------------------------------------------------

  /** Sunday first, as `getDay()` counts. */
  const DayNames: seq<string> := ["ראשון", "שני", "שלישי", "רביעי", "חמישי", "שישי", "שבת"]

  /** `new Date(year, month - 1, day)` from `s.split('-').map(Number)`:
      the local day number, or nothing for an Invalid Date. */
  function LocalDayOf(s: string): Option<int> {
    var p := Split(s, '-');
    var year := ToNumber(p[0]);
    var month := if |p| > 1 then ToNumber(p[1]) else NaN;
    var day := if |p| > 2 then ToNumber(p[2]) else NaN;
    JsLocalDay(year, month, day)
  }

  /** `getDay()` of that date: 0 (Sunday) to 6, or nothing for NaN. */
  function WeekDayOf(s: string): (r: Option<int>)
    ensures r.Some? ==> 0 <= r.value < 7
  {
    match LocalDayOf(s)
    case Some(t) => Some(WeekDay(t))
    case None => None
  }

  /** `formatHebrewDate`: the text, " | יום " and the weekday's name, or
      "undefined" in place of the name when the date is invalid. */
  function FormatHebrewDate(s: string): (r: string)
    ensures |r| > |s| && r[..|s|] == s
  {
    var name := match WeekDayOf(s) case Some(w) => DayNames[w] case None => "undefined";
    s + " | יום " + name
  }

  /** For a `YYYY-MM-DD` date from year 100 on, the label names the date's
      Gregorian weekday. */
  lemma FormatIsoDate(d: Date)
    requires Valid(d) && 100 <= d.year <= 9999
    ensures FormatHebrewDate(IsoDate(d)) == IsoDate(d) + " | יום " + DayNames[WeekDay(DayNumber(d))]
  {
    IsoDateNumbers(d);
    IsoDateReadBack(d);
  }

  /** The sample page date is labelled Saturday. */
  lemma FormatSampleDate()
    ensures FormatHebrewDate("2025-01-25") == "2025-01-25" + " | יום " + "שבת"
  {
    var d := Date(2025, 1, 25);
    SampleIsoDate();
    FormatIsoDate(d);
    SampleDate();
    assert DayNames[6] == "שבת";
  }

  lemma SampleIsoDate()
    ensures IsoDate(Date(2025, 1, 25)) == "2025-01-25"
  {
    assert NatDigits(2025) == "2025" by {
      assert NatDigits(2) == "2" && NatDigits(20) == "20" && NatDigits(202) == "202";
    }
    assert NatDigits(25) == "25" by { assert NatDigits(2) == "2"; }
    assert PadNat(1, 2) == "01" by { assert NatDigits(1) == "1"; }
    assert "2025" + "-" + "01" + "-" + "25" == "2025-01-25";
  }

  /** A text whose year piece is not a number is labelled "undefined". */
  lemma FormatNotADate(s: string)
    requires ToNumber(Split(s, '-')[0]).NaN?
    ensures FormatHebrewDate(s) == s + " | יום " + "undefined"
  {
  }
}
