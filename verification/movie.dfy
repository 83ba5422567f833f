/** The record shapes shared by the Node backend and the frontend
    (`Movie` and `Screening`), the screening identity `(dateTime, venue)`,
    and the duplicate-suppressing append every merge step uses. */
module Model {
  import opened Wrappers

  datatype Screening = Screening(
    dateTime: string,
    venue: string,
    language: Option<string>,
    subtitles: Option<string>)

  datatype Movie = Movie(
    title: string,
    originalTitle: Option<string>,
    altName: Option<string>,
    year: Option<int>,
    durationMinutes: Option<int>,
    imgUrl: Option<string>,
    siteUrl: Option<string>,
    screenings: seq<Screening>)

  /** The venue literal of the date-page extractors. */
  const VenueEnglish: string := "Cinematheque TLV"

  /** The venue literal of the legacy listing extractor. */
  const VenueHebrew: string := "סינמטק תל אביב"

  /** A screening as the extractors build it: date-time and venue only. */
  function Showing(dateTime: string, venue: string): Screening {
    Screening(dateTime, venue, None, None)
  }

  // ---------------------------------------------------------------------------
  // Screening identity
  // ---------------------------------------------------------------------------

  /** Two screenings are duplicates iff their keys are equal. */
  function KeyOf(s: Screening): (string, string) {
    (s.dateTime, s.venue)
  }

  function Keys(ss: seq<Screening>): set<(string, string)> {
    set i | 0 <= i < |ss| :: KeyOf(ss[i])
  }

  /** `ss.some(e => e.dateTime === s.dateTime && e.venue === s.venue)`. */
  predicate HasKey(ss: seq<Screening>, s: Screening) {
    exists i :: 0 <= i < |ss| && KeyOf(ss[i]) == KeyOf(s)
  }

  predicate NoDupKeys(ss: seq<Screening>) {
    forall i, j :: 0 <= i < j < |ss| ==> KeyOf(ss[i]) != KeyOf(ss[j])
  }

  lemma HasKeyIffInKeys(ss: seq<Screening>, s: Screening)
    ensures HasKey(ss, s) <==> KeyOf(s) in Keys(ss)
  {
  }

  lemma KeysAppend(a: seq<Screening>, b: seq<Screening>)
    ensures Keys(a + b) == Keys(a) + Keys(b)
  {
    var ab := a + b;
    forall k | k in Keys(ab) ensures k in Keys(a) + Keys(b) {
      var i :| 0 <= i < |ab| && KeyOf(ab[i]) == k;
      if i < |a| { assert ab[i] == a[i]; } else { assert ab[i] == b[i - |a|]; }
    }
    forall k | k in Keys(a) + Keys(b) ensures k in Keys(ab) {
      if k in Keys(a) {
        var i :| 0 <= i < |a| && KeyOf(a[i]) == k;
        assert ab[i] == a[i];
      } else {
        var i :| 0 <= i < |b| && KeyOf(b[i]) == k;
        assert ab[|a| + i] == b[i];
      }
    }
  }

  /** Appends, in order, each screening of `incoming` whose key is not yet
      present; this is the inner loop of `_addOrUpdateMovie`, `_mergeMovies`
      and both controller merge loops. */
  function AppendNew(existing: seq<Screening>, incoming: seq<Screening>): (r: seq<Screening>)
    ensures existing <= r
    ensures Keys(r) == Keys(existing) + Keys(incoming)
    ensures forall i :: |existing| <= i < |r| ==> r[i] in incoming && KeyOf(r[i]) !in Keys(existing)
    ensures NoDupKeys(existing) ==> NoDupKeys(r)
    decreases |incoming|
  {
    if |incoming| == 0 then existing
    else
      var s := incoming[0];
      var next := if HasKey(existing, s) then existing else existing + [s];
      KeysAppend(existing, [s]);
      KeysAppend([s], incoming[1..]);
      assert incoming == [s] + incoming[1..];
      assert Keys([s]) == {KeyOf(s)};
      var r := AppendNew(next, incoming[1..]);
      assert forall i :: |next| <= i < |r| ==> r[i] in incoming by {
        forall i | |next| <= i < |r| ensures r[i] in incoming {
          assert r[i] in incoming[1..];
        }
      }
      r
  }

  /** Appending one screening is set insertion by key: Kotlin's
      `LinkedHashSet.add` under `Screening` equality. */
  lemma AppendOne(existing: seq<Screening>, s: Screening)
    ensures AppendNew(existing, [s]) == if HasKey(existing, s) then existing else existing + [s]
  {
    assert [s][1..] == [];
  }

  /** Appending two lists one after the other is appending their concatenation. */
  lemma {:induction false} AppendNewConcat(e: seq<Screening>, a: seq<Screening>, b: seq<Screening>)
    ensures AppendNew(AppendNew(e, a), b) == AppendNew(e, a + b)
    decreases |a|
  {
    if |a| == 0 {
      assert a + b == b;
    } else {
      var s := a[0];
      var next := if HasKey(e, s) then e else e + [s];
      assert (a + b)[0] == s && (a + b)[1..] == a[1..] + b;
      AppendNewConcat(next, a[1..], b);
    }
  }

  /** A duplicate-free list is unchanged by deduplication. */
  lemma {:induction false} AppendNewDupFree(e: seq<Screening>, a: seq<Screening>)
    requires NoDupKeys(e + a)
    ensures AppendNew(e, a) == e + a
    decreases |a|
  {
    if |a| > 0 {
      var s := a[0];
      assert !HasKey(e, s) by {
        forall i | 0 <= i < |e| ensures KeyOf(e[i]) != KeyOf(s) {
          assert (e + a)[i] == e[i] && (e + a)[|e|] == s;
        }
      }
      assert e + a == (e + [s]) + a[1..];
      AppendNewDupFree(e + [s], a[1..]);
    }
  }

  /** Deduplicating first and then appending is the same as appending
      directly: later occurrences of a key are skipped either way. */
  lemma {:induction false} AppendNewOfDeduped(e: seq<Screening>, s: seq<Screening>)
    ensures AppendNew(e, AppendNew([], s)) == AppendNew(e, s)
    decreases |s|
  {
    if |s| > 0 {
      var init := s[..|s| - 1];
      var x := s[|s| - 1];
      assert s == init + [x];
      var d := AppendNew([], init);
      AppendNewConcat([], init, [x]);
      AppendNewConcat(e, init, [x]);
      AppendOne(d, x);
      AppendOne(AppendNew(e, init), x);
      AppendNewOfDeduped(e, init);
      if HasKey(d, x) {
        HasKeyIffInKeys(d, x);
        HasKeyIffInKeys(AppendNew(e, init), x);
      } else {
        AppendNewConcat(e, d, [x]);
      }
    }
  }

  // ---------------------------------------------------------------------------
  // Movies keyed by title
  // ---------------------------------------------------------------------------

  function Titles(ms: seq<Movie>): (ts: seq<string>)
    ensures |ts| == |ms| && forall i :: 0 <= i < |ms| ==> ts[i] == ms[i].title
  {
    seq(|ms|, i requires 0 <= i < |ms| => ms[i].title)
  }

  predicate DistinctTitles(ms: seq<Movie>) {
    forall i, j :: 0 <= i < j < |ms| ==> ms[i].title != ms[j].title
  }

  /** `ms.find(m => m.title === t)`, as a position. */
  function IndexOfTitle(ms: seq<Movie>, t: string): (r: Option<nat>)
    ensures r.Some? ==> r.value < |ms| && ms[r.value].title == t
                        && forall j :: 0 <= j < r.value ==> ms[j].title != t
    ensures r.None? <==> forall j :: 0 <= j < |ms| ==> ms[j].title != t
    decreases |ms|
  {
    if |ms| == 0 then None
    else if ms[0].title == t then Some(0)
    else match IndexOfTitle(ms[1..], t)
      case Some(i) => Some(i + 1)
      case None => None
  }

  /** The position of the first record titled `t`, or `|ms|` if none. */
  function FirstIndex(ms: seq<Movie>, t: string): (i: nat)
    ensures i <= |ms|
  {
    IndexOfTitle(ms, t).GetOr(|ms|)
  }

  lemma FirstIndexAppend(ms: seq<Movie>, m: Movie, t: string)
    ensures FirstIndex(ms + [m], t) == if FirstIndex(ms, t) < |ms| then FirstIndex(ms, t)
                                       else if m.title == t then |ms| else |ms| + 1
  {
    var ms' := ms + [m];
    assert forall j :: 0 <= j < |ms| ==> ms'[j] == ms[j];
    var r := IndexOfTitle(ms, t);
    var r' := IndexOfTitle(ms', t);
    if r.Some? {
      assert ms'[r.value].title == t;
      assert r'.Some?;
    } else if m.title == t {
      assert ms'[|ms|].title == t;
      assert r'.Some?;
    } else {
      assert forall j :: 0 <= j < |ms'| ==> ms'[j].title != t;
    }
  }

  /** A title already present in `a` is found at the same place in `a + b`. */
  lemma FirstIndexPrefix(a: seq<Movie>, b: seq<Movie>, t: string)
    requires FirstIndex(a, t) < |a|
    ensures FirstIndex(a + b, t) == FirstIndex(a, t)
  {
    var i := FirstIndex(a, t);
    var ab := a + b;
    assert forall j :: 0 <= j < |a| ==> ab[j] == a[j];
    assert ab[i].title == t;
  }

  /** Everything about a movie except its screenings. */
  function Meta(m: Movie): Movie {
    m.(screenings := [])
  }
}
