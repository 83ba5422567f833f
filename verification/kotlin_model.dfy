/** The Kotlin backend's record classes (`Movie.kt`): constructor defaults,
    the overridden `equals`/`hashCode` pairs, the JVM's 32-bit string hash
    over UTF-16 code units, and the insertion-ordered hash sets the parser
    fills (`mutableSetOf`, `toMutableSet`, `toSet`). */
module KotlinModel {
  import opened Wrappers
  import opened Model

  // ---------------------------------------------------------------------------
  // 32-bit integer arithmetic
  // ---------------------------------------------------------------------------

  const TwoTo32: int := 0x1_0000_0000
  const TwoTo31: int := 0x8000_0000

  /** A JVM `Int`: the value in [-2^31, 2^31). */
  predicate IsInt32(x: int) {
    -TwoTo31 <= x < TwoTo31
  }

  /** Two's-complement wrap-around of an unbounded integer to a JVM `Int`. */
  function Wrap32(x: int): (r: int)
    ensures IsInt32(r)
    ensures (x - r) % TwoTo32 == 0
    ensures IsInt32(x) ==> r == x
  {
    var m := x % TwoTo32;
    if m >= TwoTo31 then m - TwoTo32 else m
  }

  /** Wrapping depends only on the value modulo 2^32. */
  lemma WrapCongruent(a: int, b: int, q: int)
    requires a - b == TwoTo32 * q
    ensures Wrap32(a) == Wrap32(b)
  {
    assert a % TwoTo32 == b % TwoTo32;
  }

  /** `31 * h + c` in `Int` arithmetic may wrap the accumulator first or only at the end. */
  lemma WrapStep(x: int, c: int)
    ensures Wrap32(31 * Wrap32(x) + c) == Wrap32(31 * x + c)
  {
    var w := Wrap32(x);
    var d := x / TwoTo32;
    var q := if x % TwoTo32 >= TwoTo31 then d + 1 else d;
    assert x - w == TwoTo32 * q;
    WrapCongruent(31 * x + c, 31 * w + c, 31 * q);
  }

  // ---------------------------------------------------------------------------
  // UTF-16 and String.hashCode
  // ---------------------------------------------------------------------------

  /** The UTF-16 code units of one character: itself below U+10000, a
      surrogate pair above. */
  function Units(c: char): (u: seq<int>)
    ensures 1 <= |u| <= 2
    ensures forall i :: 0 <= i < |u| ==> 0 <= u[i] < 0x1_0000
    ensures |u| == 1 <==> (c as int) < 0x1_0000
    ensures |u| == 2 ==> 0xD800 <= u[0] < 0xDC00 <= u[1] < 0xE000
                         && 0x1_0000 + (u[0] - 0xD800) * 0x400 + (u[1] - 0xDC00) == c as int
  {
    var v := c as int;
    if v < 0x1_0000 then [v]
    else [0xD800 + (v - 0x1_0000) / 0x400, 0xDC00 + (v - 0x1_0000) % 0x400]
  }

  /** A string as the JVM stores it: its UTF-16 code units in order. */
  function Utf16(s: string): (u: seq<int>)
    ensures |s| <= |u| <= 2 * |s|
    ensures forall i :: 0 <= i < |u| ==> 0 <= u[i] < 0x1_0000
    decreases |s|
  {
    if |s| == 0 then []
    else
      var init := Utf16(s[..|s| - 1]);
      var last := Units(s[|s| - 1]);
      assert forall i :: |init| <= i < |init| + |last| ==> (init + last)[i] == last[i - |init|];
      init + last
  }

  /** The polynomial `u[0]*31^(n-1) + ... + u[n-1]`, without wrap-around. */
  function Poly(u: seq<int>): int
    decreases |u|
  {
    if |u| == 0 then 0 else 31 * Poly(u[..|u| - 1]) + u[|u| - 1]
  }

  /** `String.hashCode`'s recurrence `h = 31 * h + unit` in `Int` arithmetic. */
  function JavaHash(u: seq<int>): (h: int)
    ensures IsInt32(h)
    decreases |u|
  {
    if |u| == 0 then 0 else Wrap32(31 * JavaHash(u[..|u| - 1]) + u[|u| - 1])
  }

  /** Wrapping at every step equals wrapping the exact polynomial once. */
  lemma {:induction false} JavaHashIsWrappedPoly(u: seq<int>)
    ensures JavaHash(u) == Wrap32(Poly(u))
    decreases |u|
  {
    if |u| > 0 {
      var init := u[..|u| - 1];
      JavaHashIsWrappedPoly(init);
      WrapStep(Poly(init), u[|u| - 1]);
    }
  }

  /** `String.hashCode()`. */
  function StringHash(s: string): (h: int)
    ensures IsInt32(h)
  {
    JavaHash(Utf16(s))
  }

  /** The JDK's loop over the code units, with its `Int` accumulator. */
  method StringHashCode(s: string) returns (h: int)
    ensures IsInt32(h)
    ensures h == Wrap32(Poly(Utf16(s)))
  {
    var u := Utf16(s);
    h := 0;
    var i := 0;
    while i < |u|
      invariant 0 <= i <= |u|
      invariant h == JavaHash(u[..i])
    {
      assert u[..i + 1][..i] == u[..i];
      h := Wrap32(31 * h + u[i]);
      i := i + 1;
    }
    assert u[..|u|] == u;
    JavaHashIsWrappedPoly(u);
  }

  lemma Utf16Two(a: char, b: char)
    requires (a as int) < 0x1_0000 && (b as int) < 0x1_0000
    ensures Utf16([a, b]) == [a as int, b as int]
  {
    assert [a, b][..1] == [a] && [a][..0] == [];
  }

  lemma JavaHashTwo(x: int, y: int)
    requires 0 <= x < 0x1_0000 && 0 <= y < 0x1_0000
    ensures JavaHash([x, y]) == 31 * x + y
  {
    assert [x, y][..1] == [x] && [x][..0] == [];
    assert JavaHash([]) == 0;
    assert JavaHash([x]) == Wrap32(x) == x;
    assert IsInt32(31 * x + y);
  }

  /** A two-character string of the Basic Multilingual Plane hashes to
      `31 * first + second`. */
  lemma TwoCharHash(s: string)
    requires |s| == 2 && (s[0] as int) < 0x1_0000 && (s[1] as int) < 0x1_0000
    ensures StringHash(s) == 31 * (s[0] as int) + (s[1] as int)
  {
    assert s == [s[0], s[1]];
    Utf16Two(s[0], s[1]);
    JavaHashTwo(s[0] as int, s[1] as int);
  }

  /** Worked values: "ab" hashes to 97 * 31 + 98, and the well-known pair
      "Aa"/"BB" collide, so equal hashes do not mean equal strings. */
  lemma StringHashExamples()
    ensures StringHash("ab") == 3105
    ensures StringHash("Aa") == StringHash("BB") == 2112
  {
    TwoCharHash("ab");
    TwoCharHash("Aa");
    TwoCharHash("BB");
  }

  /** A character outside the Basic Multilingual Plane counts as two units. */
  lemma SurrogatePairExample()
    ensures Utf16("\U{1F600}") == [0xD83D, 0xDE00]
  {
    assert "\U{1F600}"[..0] == "";
  }

  // ---------------------------------------------------------------------------
  // equals and hashCode
  // ---------------------------------------------------------------------------

  /** `Movie.equals`: title and year only. */
  predicate MovieEquals(a: Movie, b: Movie) {
    a.title == b.title && a.year == b.year
  }

  /** `Movie.hashCode`: `31 * title.hashCode() + (year ?: 0)` in `Int`. */
  function MovieHash(m: Movie): (h: int)
    ensures IsInt32(h)
  {
    Wrap32(31 * StringHash(m.title) + m.year.GetOr(0))
  }

  /** `Screening.equals`: date-time and venue only, the key the merges use. */
  predicate ScreeningEquals(a: Screening, b: Screening) {
    a.dateTime == b.dateTime && a.venue == b.venue
  }

  /** `Screening.hashCode`: `31 * dateTime.hashCode() + venue.hashCode()` in `Int`. */
  function ScreeningHash(s: Screening): (h: int)
    ensures IsInt32(h)
  {
    Wrap32(31 * StringHash(s.dateTime) + StringHash(s.venue))
  }

  /** The `equals`/`hashCode` contract: equal objects hash equally, and
      screening equality is exactly equality of merge keys. */
  lemma HashConsistentWithEquals(a: Movie, b: Movie, s: Screening, t: Screening)
    ensures MovieEquals(a, b) ==> MovieHash(a) == MovieHash(b)
    ensures ScreeningEquals(s, t) ==> ScreeningHash(s) == ScreeningHash(t)
    ensures ScreeningEquals(s, t) <==> KeyOf(s) == KeyOf(t)
  {
  }

  /** Both `equals` overrides are equivalence relations, as `Any.equals`
      requires: reflexive, symmetric and transitive. */
  lemma EqualsAreEquivalences(a: Movie, b: Movie, c: Movie, s: Screening, t: Screening, u: Screening)
    ensures MovieEquals(a, a)
    ensures MovieEquals(a, b) ==> MovieEquals(b, a)
    ensures MovieEquals(a, b) && MovieEquals(b, c) ==> MovieEquals(a, c)
    ensures ScreeningEquals(s, s)
    ensures ScreeningEquals(s, t) ==> ScreeningEquals(t, s)
    ensures ScreeningEquals(s, t) && ScreeningEquals(t, u) ==> ScreeningEquals(s, u)
  {
  }

  /** A movie's hash without a year is its title's hash times 31, wrapped. */
  lemma MovieHashWithoutYear(m: Movie)
    requires m.year.None?
    ensures MovieHash(m) == Wrap32(Poly(Utf16(m.title)) * 31)
  {
    JavaHashIsWrappedPoly(Utf16(m.title));
    WrapStep(Poly(Utf16(m.title)), 0);
  }

  /** `Movie(title = t)`: every other field takes its default. */
  function NewMovie(title: string): (m: Movie)
    ensures m.title == title && m.screenings == []
    ensures m.originalTitle.None? && m.altName.None? && m.year.None?
    ensures m.durationMinutes.None? && m.imgUrl.None? && m.siteUrl.None?
  {
    Movie(title, None, None, None, None, None, None, [])
  }

  // ---------------------------------------------------------------------------
  // Insertion-ordered hash sets
  // ---------------------------------------------------------------------------

  /** `LinkedHashSet<Screening>.add`: kept out when an equal element is present. */
  function ScreeningSetAdd(elems: seq<Screening>, s: Screening): seq<Screening> {
    if exists i :: 0 <= i < |elems| && ScreeningEquals(elems[i], s) then elems else elems + [s]
  }

  /** `toMutableSet()` on a list of screenings: the adds in list order. */
  function ToScreeningSet(xs: seq<Screening>): seq<Screening>
    decreases |xs|
  {
    if |xs| == 0 then [] else ScreeningSetAdd(ToScreeningSet(xs[..|xs| - 1]), xs[|xs| - 1])
  }

  /** One `add` is the merges' duplicate-suppressing append of one screening. */
  lemma ScreeningSetAddIsAppend(elems: seq<Screening>, s: Screening)
    ensures ScreeningSetAdd(elems, s) == AppendNew(elems, [s])
  {
    AppendOne(elems, s);
  }

  /** Building the set is the merges' append into an empty list: the first
      screening of every key, in list order. */
  lemma {:induction false} ToScreeningSetIsAppendNew(xs: seq<Screening>)
    ensures ToScreeningSet(xs) == AppendNew([], xs)
    ensures NoDupKeys(ToScreeningSet(xs)) && Keys(ToScreeningSet(xs)) == Keys(xs)
    decreases |xs|
  {
    if |xs| > 0 {
      var init, x := xs[..|xs| - 1], xs[|xs| - 1];
      assert xs == init + [x];
      ToScreeningSetIsAppendNew(init);
      ScreeningSetAddIsAppend(ToScreeningSet(init), x);
      AppendNewConcat([], init, [x]);
    }
  }

  /** `LinkedHashSet<Movie>.add`, under `Movie.equals`. */
  function MovieSetAdd(elems: seq<Movie>, m: Movie): seq<Movie> {
    if exists i :: 0 <= i < |elems| && MovieEquals(elems[i], m) then elems else elems + [m]
  }

  /** `toSet()` on a collection of movies: each one is added unless an equal
      one is already in. */
  function ToMovieSet(ms: seq<Movie>): seq<Movie>
    decreases |ms|
  {
    if |ms| == 0 then [] else MovieSetAdd(ToMovieSet(ms[..|ms| - 1]), ms[|ms| - 1])
  }

  /** The set holds no two equal movies, has an equal for every movie of the
      collection, and is no larger than it. */
  lemma {:induction false} ToMovieSetSpec(ms: seq<Movie>)
    ensures var r := ToMovieSet(ms);
            && (forall i, j :: 0 <= i < j < |r| ==> !MovieEquals(r[i], r[j]))
            && (forall i :: 0 <= i < |ms| ==> exists j :: 0 <= j < |r| && MovieEquals(r[j], ms[i]))
            && |r| <= |ms|
    decreases |ms|
  {
    if |ms| > 0 {
      var init, m := ms[..|ms| - 1], ms[|ms| - 1];
      ToMovieSetSpec(init);
      var prev := ToMovieSet(init);
      var r := ToMovieSet(ms);
      assert r == MovieSetAdd(prev, m);
      assert forall i :: 0 <= i < |init| ==> ms[i] == init[i];
      assert forall j :: 0 <= j < |prev| ==> r[j] == prev[j];
      forall i | 0 <= i < |ms| ensures exists j :: 0 <= j < |r| && MovieEquals(r[j], ms[i]) {
        if i < |init| {
          var j :| 0 <= j < |prev| && MovieEquals(prev[j], init[i]);
          assert r[j] == prev[j];
        } else if exists j :: 0 <= j < |prev| && MovieEquals(prev[j], m) {
          var j :| 0 <= j < |prev| && MovieEquals(prev[j], m);
          assert r[j] == prev[j];
        } else {
          assert r[|prev|] == m;
        }
      }
    }
  }

  lemma MovieSetAddFresh(elems: seq<Movie>, m: Movie)
    requires forall i :: 0 <= i < |elems| ==> !MovieEquals(elems[i], m)
    ensures MovieSetAdd(elems, m) == elems + [m]
  {
  }

  /** When no two movies share a title, `toSet()` keeps the collection as it is. */
  lemma {:induction false} ToMovieSetOfDistinct(ms: seq<Movie>)
    requires DistinctTitles(ms)
    ensures ToMovieSet(ms) == ms
    decreases |ms|
  {
    if |ms| > 0 {
      var init, m := ms[..|ms| - 1], ms[|ms| - 1];
      assert ms == init + [m];
      assert DistinctTitles(init);
      ToMovieSetOfDistinct(init);
      forall i | 0 <= i < |init| ensures !MovieEquals(init[i], m) {
        assert ms[i] == init[i];
      }
      MovieSetAddFresh(init, m);
    }
  }
}
