/** The record merger: the fold of `BatchedFetcher._mergeMovies` and of the
    two controller merge loops. The first record seen for a title is adopted
    whole; every later record with that title only contributes the screenings
    whose `(dateTime, venue)` is not yet present. */
module Merge {
  import opened Wrappers
  import opened Model

  function TitleSet(ms: seq<Movie>): set<string> {
    set i | 0 <= i < |ms| :: ms[i].title
  }

  /** One step of the fold: absorb record `m` into the adopted list `acc`. */
  function Absorb(acc: seq<Movie>, m: Movie): seq<Movie> {
    match IndexOfTitle(acc, m.title)
    case Some(i) => acc[i := acc[i].(screenings := AppendNew(acc[i].screenings, m.screenings))]
    case None => acc + [m]
  }

  /** `_mergeMovies(movies)`: the records folded from first to last. The
      result holds each distinct input title exactly once, ordered by the
      position where the title first occurs in the input. */
  function MergeMovies(ms: seq<Movie>): (r: seq<Movie>)
    ensures DistinctTitles(r)
    ensures TitleSet(r) == TitleSet(ms)
    ensures forall k, l :: 0 <= k < l < |r| ==> FirstIndex(ms, r[k].title) < FirstIndex(ms, r[l].title)
    decreases |ms|
  {
    if |ms| == 0 then []
    else
      var init := ms[..|ms| - 1];
      var m := ms[|ms| - 1];
      assert ms == init + [m];
      var prev := MergeMovies(init);
      AbsorbKeepsTitleOrder(prev, init, m);
      Absorb(prev, m)
  }

  lemma InTitleSet(ms: seq<Movie>, t: string)
    ensures t in TitleSet(ms) <==> FirstIndex(ms, t) < |ms|
  {
    if t in TitleSet(ms) {
      var j :| 0 <= j < |ms| && ms[j].title == t;
    }
  }

  /** Titles already adopted keep their first position when a record is appended. */
  lemma AdoptedFirstIndexStable(prev: seq<Movie>, init: seq<Movie>, m: Movie)
    requires TitleSet(prev) == TitleSet(init)
    ensures forall k :: 0 <= k < |prev| ==>
              FirstIndex(init + [m], prev[k].title) == FirstIndex(init, prev[k].title) < |init|
  {
    forall k | 0 <= k < |prev|
      ensures FirstIndex(init + [m], prev[k].title) == FirstIndex(init, prev[k].title) < |init|
    {
      assert prev[k].title in TitleSet(prev);
      InTitleSet(init, prev[k].title);
      FirstIndexAppend(init, m, prev[k].title);
    }
  }

  lemma TitleSetAppend(ms: seq<Movie>, m: Movie)
    ensures TitleSet(ms + [m]) == TitleSet(ms) + {m.title}
  {
    var ms' := ms + [m];
    assert forall i :: 0 <= i < |ms| ==> ms'[i] == ms[i];
    assert ms'[|ms|] == m;
  }

  lemma AbsorbKeepsTitleOrder(prev: seq<Movie>, init: seq<Movie>, m: Movie)
    requires DistinctTitles(prev)
    requires TitleSet(prev) == TitleSet(init)
    requires forall k, l :: 0 <= k < l < |prev| ==> FirstIndex(init, prev[k].title) < FirstIndex(init, prev[l].title)
    ensures var r := Absorb(prev, m);
            && DistinctTitles(r)
            && TitleSet(r) == TitleSet(init + [m])
            && forall k, l :: 0 <= k < l < |r| ==> FirstIndex(init + [m], r[k].title) < FirstIndex(init + [m], r[l].title)
  {
    AdoptedFirstIndexStable(prev, init, m);
    TitleSetAppend(init, m);
    match IndexOfTitle(prev, m.title)
    case Some(i) => AbsorbExisting(prev, init, m, i);
    case None => AbsorbNew(prev, init, m);
  }

  lemma AbsorbExisting(prev: seq<Movie>, init: seq<Movie>, m: Movie, i: nat)
    requires DistinctTitles(prev)
    requires TitleSet(prev) == TitleSet(init)
    requires forall k, l :: 0 <= k < l < |prev| ==> FirstIndex(init, prev[k].title) < FirstIndex(init, prev[l].title)
    requires forall k :: 0 <= k < |prev| ==>
               FirstIndex(init + [m], prev[k].title) == FirstIndex(init, prev[k].title) < |init|
    requires TitleSet(init + [m]) == TitleSet(init) + {m.title}
    requires IndexOfTitle(prev, m.title) == Some(i)
    ensures var r := Absorb(prev, m);
            && DistinctTitles(r)
            && TitleSet(r) == TitleSet(init + [m])
            && forall k, l :: 0 <= k < l < |r| ==> FirstIndex(init + [m], r[k].title) < FirstIndex(init + [m], r[l].title)
  {
    var r := prev[i := prev[i].(screenings := AppendNew(prev[i].screenings, m.screenings))];
    assert r == Absorb(prev, m);
    assert |r| == |prev| && forall k :: 0 <= k < |r| ==> r[k].title == prev[k].title;
    assert TitleSet(r) == TitleSet(prev);
    assert m.title in TitleSet(prev) by { assert prev[i].title == m.title; }
    forall k, l | 0 <= k < l < |r|
      ensures FirstIndex(init + [m], r[k].title) < FirstIndex(init + [m], r[l].title)
    {
      assert r[k].title == prev[k].title && r[l].title == prev[l].title;
    }
  }

  lemma AbsorbNew(prev: seq<Movie>, init: seq<Movie>, m: Movie)
    requires DistinctTitles(prev)
    requires TitleSet(prev) == TitleSet(init)
    requires forall k, l :: 0 <= k < l < |prev| ==> FirstIndex(init, prev[k].title) < FirstIndex(init, prev[l].title)
    requires forall k :: 0 <= k < |prev| ==>
               FirstIndex(init + [m], prev[k].title) == FirstIndex(init, prev[k].title) < |init|
    requires TitleSet(init + [m]) == TitleSet(init) + {m.title}
    requires IndexOfTitle(prev, m.title) == None
    ensures var r := Absorb(prev, m);
            && DistinctTitles(r)
            && TitleSet(r) == TitleSet(init + [m])
            && forall k, l :: 0 <= k < l < |r| ==> FirstIndex(init + [m], r[k].title) < FirstIndex(init + [m], r[l].title)
  {
    var r := Absorb(prev, m);
    assert r == prev + [m];
    TitleSetAppend(prev, m);
    assert m.title !in TitleSet(init);
    InTitleSet(init, m.title);
    FirstIndexAppend(init, m, m.title);
    assert FirstIndex(init + [m], m.title) == |init|;
    assert forall k :: 0 <= k < |prev| ==> r[k] == prev[k];
    forall k, l | 0 <= k < l < |r|
      ensures FirstIndex(init + [m], r[k].title) < FirstIndex(init + [m], r[l].title)
    {
      if l == |prev| {
        assert r[l] == m;
      }
    }
  }

  // ---------------------------------------------------------------------------
  // First record wins: metadata and screenings of each merged movie
  // ---------------------------------------------------------------------------

  /** The screenings of the records titled `t` at positions `from` and later,
      concatenated in input order. */
  function ScreeningsOfTitle(ms: seq<Movie>, t: string, from: nat): seq<Screening>
    decreases |ms|
  {
    if |ms| <= from then []
    else ScreeningsOfTitle(ms[..|ms| - 1], t, from)
         + (if ms[|ms| - 1].title == t then ms[|ms| - 1].screenings else [])
  }

  /** Movie `x` is what merging `ms` yields for its title: its metadata is
      that of the first record with the title, and its screenings are that
      record's list followed by every later screening of the title whose key
      is new. */
  ghost predicate WinsFor(x: Movie, ms: seq<Movie>) {
    var i := FirstIndex(ms, x.title);
    && i < |ms|
    && Meta(x) == Meta(ms[i])
    && x.screenings == AppendNew(ms[i].screenings, ScreeningsOfTitle(ms, x.title, i + 1))
  }

  ghost predicate FirstWins(r: seq<Movie>, ms: seq<Movie>) {
    forall k :: 0 <= k < |r| ==> WinsFor(r[k], ms)
  }

  lemma ScreeningsOfTitleAppend(ms: seq<Movie>, m: Movie, t: string, from: nat)
    ensures ScreeningsOfTitle(ms + [m], t, from)
            == ScreeningsOfTitle(ms, t, from) + (if m.title == t && from <= |ms| then m.screenings else [])
  {
    assert (ms + [m])[..|ms|] == ms;
    if |ms| < from {
      assert ScreeningsOfTitle(ms, t, from) == [];
    }
  }

  /** A record with another title leaves a merged movie as it was. */
  lemma WinsForOtherTitle(x: Movie, init: seq<Movie>, m: Movie)
    requires WinsFor(x, init)
    requires x.title != m.title
    ensures WinsFor(x, init + [m])
  {
    var t, ms := x.title, init + [m];
    var i := FirstIndex(init, t);
    FirstIndexAppend(init, m, t);
    assert FirstIndex(ms, t) == i;
    ScreeningsOfTitleAppend(init, m, t, i + 1);
    assert ScreeningsOfTitle(ms, t, i + 1) == ScreeningsOfTitle(init, t, i + 1) + [];
    assert ScreeningsOfTitle(init, t, i + 1) + [] == ScreeningsOfTitle(init, t, i + 1);
    assert ms[i] == init[i];
  }

  /** A later record with the same title contributes its new screenings. */
  lemma WinsForSameTitle(x: Movie, init: seq<Movie>, m: Movie)
    requires WinsFor(x, init)
    requires x.title == m.title
    ensures WinsFor(x.(screenings := AppendNew(x.screenings, m.screenings)), init + [m])
  {
    var i := FirstIndex(init, x.title);
    SameTitleAppended(init, m, i);
    AppendNewConcat(init[i].screenings, ScreeningsOfTitle(init, m.title, i + 1), m.screenings);
    WinsForIntro(x.(screenings := AppendNew(x.screenings, m.screenings)), init + [m], i);
  }

  /** Appending a record whose title first occurs at `i` keeps that first
      occurrence and adds the record's screenings after the later ones. */
  lemma SameTitleAppended(init: seq<Movie>, m: Movie, i: nat)
    requires i == FirstIndex(init, m.title) < |init|
    ensures FirstIndex(init + [m], m.title) == i && (init + [m])[i] == init[i]
    ensures ScreeningsOfTitle(init + [m], m.title, i + 1) == ScreeningsOfTitle(init, m.title, i + 1) + m.screenings
  {
    FirstIndexAppend(init, m, m.title);
    ScreeningsOfTitleAppend(init, m, m.title, i + 1);
  }


  lemma WinsForIntro(x: Movie, ms: seq<Movie>, i: nat)
    requires i == FirstIndex(ms, x.title) < |ms|
    requires Meta(x) == Meta(ms[i])
    requires x.screenings == AppendNew(ms[i].screenings, ScreeningsOfTitle(ms, x.title, i + 1))
    ensures WinsFor(x, ms)
  {
  }



  /** The first record with a title is adopted whole. */
  lemma WinsForNewTitle(init: seq<Movie>, m: Movie)
    requires FirstIndex(init, m.title) == |init|
    ensures WinsFor(m, init + [m])
  {
    FirstIndexAppend(init, m, m.title);
    assert (init + [m])[|init|] == m;
    assert ScreeningsOfTitle(init + [m], m.title, |init| + 1) == [];
  }

  lemma {:induction false} MergeFirstWins(ms: seq<Movie>)
    ensures FirstWins(MergeMovies(ms), ms)
    decreases |ms|
  {
    if |ms| > 0 {
      var init := ms[..|ms| - 1];
      var m := ms[|ms| - 1];
      assert ms == init + [m];
      var prev := MergeMovies(init);
      MergeFirstWins(init);
      var r := Absorb(prev, m);
      assert r == MergeMovies(ms);
      match IndexOfTitle(prev, m.title)
      case Some(i) =>
        forall k | 0 <= k < |r| ensures WinsFor(r[k], ms) {
          if k == i {
            WinsForSameTitle(prev[k], init, m);
          } else {
            assert r[k] == prev[k];
            WinsForOtherTitle(prev[k], init, m);
          }
        }
      case None =>
        assert FirstIndex(init, m.title) == |init| by {
          InTitleSet(init, m.title);
          assert m.title !in TitleSet(prev);
        }
        forall k | 0 <= k < |r| ensures WinsFor(r[k], ms) {
          if k < |prev| {
            assert r[k] == prev[k];
            WinsForOtherTitle(prev[k], init, m);
          } else {
            WinsForNewTitle(init, m);
          }
        }
    }
  }

  /** Metadata (altName, year, imgUrl, siteUrl, ...) of every merged movie is
      that of the first input record with its title, and that record's
      screenings are kept in front, in their order. */
  lemma MergeKeepsFirstMetadata(ms: seq<Movie>)
    ensures var r := MergeMovies(ms);
            forall k :: 0 <= k < |r| ==>
              var i := FirstIndex(ms, r[k].title);
              i < |ms| && Meta(r[k]) == Meta(ms[i]) && ms[i].screenings <= r[k].screenings
  {
    MergeFirstWins(ms);
  }

  lemma {:induction false} ScreeningsOfTitleSplit(ms: seq<Movie>, t: string, from: nat, mid: nat)
    requires from <= mid <= |ms|
    ensures ScreeningsOfTitle(ms, t, from) == ScreeningsOfTitle(ms[..mid], t, from) + ScreeningsOfTitle(ms, t, mid)
    decreases |ms|
  {
    if |ms| > mid {
      var init := ms[..|ms| - 1];
      assert init[..mid] == ms[..mid];
      ScreeningsOfTitleSplit(init, t, from, mid);
    } else {
      assert ms[..mid] == ms;
    }
  }

  lemma {:induction false} ScreeningsOfAbsentTitle(ms: seq<Movie>, t: string, from: nat)
    requires forall j :: 0 <= j < |ms| ==> ms[j].title != t
    ensures ScreeningsOfTitle(ms, t, from) == []
    decreases |ms|
  {
    if |ms| > from {
      ScreeningsOfAbsentTitle(ms[..|ms| - 1], t, from);
    }
  }

  /** The screening keys of the records titled `t`, over the whole input. */
  function KeysOfTitle(ms: seq<Movie>, t: string): set<(string, string)> {
    Keys(ScreeningsOfTitle(ms, t, 0))
  }

  /** Every merged movie's screening keys are the union of the keys of all
      input records with its title. */
  lemma MergeUnionsKeys(ms: seq<Movie>)
    ensures var r := MergeMovies(ms);
            forall k :: 0 <= k < |r| ==> Keys(r[k].screenings) == KeysOfTitle(ms, r[k].title)
  {
    var r := MergeMovies(ms);
    MergeFirstWins(ms);
    forall k | 0 <= k < |r| ensures Keys(r[k].screenings) == KeysOfTitle(ms, r[k].title) {
      WinnerKeys(ms, r[k]);
    }
  }

  /** A movie built the first-record-wins way holds the keys of every record
      of its title. */
  lemma WinnerKeys(ms: seq<Movie>, x: Movie)
    requires WinsFor(x, ms)
    ensures Keys(x.screenings) == KeysOfTitle(ms, x.title)
  {
    var t := x.title;
    var i := FirstIndex(ms, t);
    var pre, upto := ms[..i], ms[..i + 1];
    var first, later := ms[i].screenings, ScreeningsOfTitle(ms, t, i + 1);
    ScreeningsOfTitleSplit(ms, t, 0, i + 1);
    ScreeningsOfTitleSplit(upto, t, 0, i);
    assert upto[..i] == pre;
    assert forall j :: 0 <= j < |pre| ==> pre[j].title != t;
    ScreeningsOfAbsentTitle(pre, t, 0);
    assert ScreeningsOfTitle(upto, t, i) == first by {
      assert ScreeningsOfTitle(pre, t, i) == [];
    }
    assert ScreeningsOfTitle(ms, t, 0) == first + later;
    KeysAppend(first, later);
  }



  /** If every input record's screenings are free of duplicate keys, so are
      every merged movie's. */
  lemma MergePreservesNoDup(ms: seq<Movie>)
    requires forall j :: 0 <= j < |ms| ==> NoDupKeys(ms[j].screenings)
    ensures forall k :: 0 <= k < |MergeMovies(ms)| ==> NoDupKeys(MergeMovies(ms)[k].screenings)
  {
    MergeFirstWins(ms);
  }

  // ---------------------------------------------------------------------------
  // The extractor's variant: a title's first record is deduplicated on entry
  // ---------------------------------------------------------------------------

  /** A record with its own repeated screening keys dropped. */
  function Dedup(m: Movie): (r: Movie)
    ensures Meta(r) == Meta(m) && NoDupKeys(r.screenings)
    ensures Keys(r.screenings) == Keys(m.screenings)
  {
    m.(screenings := AppendNew([], m.screenings))
  }

  function DedupAll(ms: seq<Movie>): (r: seq<Movie>)
    ensures |r| == |ms| && forall i :: 0 <= i < |ms| ==> r[i] == Dedup(ms[i])
  {
    seq(|ms|, i requires 0 <= i < |ms| => Dedup(ms[i]))
  }

  /** One step of `_addOrUpdateMovie` (and of Kotlin's `getOrPut` followed
      by set insertion): a new title enters with its screenings deduplicated,
      a known title receives only screenings with new keys. */
  function AddOrUpdate(acc: seq<Movie>, m: Movie): seq<Movie> {
    match IndexOfTitle(acc, m.title)
    case Some(i) => acc[i := acc[i].(screenings := AppendNew(acc[i].screenings, m.screenings))]
    case None => acc + [Dedup(m)]
  }

  function AddAll(ms: seq<Movie>): seq<Movie>
    decreases |ms|
  {
    if |ms| == 0 then [] else AddOrUpdate(AddAll(ms[..|ms| - 1]), ms[|ms| - 1])
  }

  /** Merging one more record is one more fold step. */
  lemma MergeSnoc(ms: seq<Movie>, m: Movie)
    ensures MergeMovies(ms + [m]) == Absorb(MergeMovies(ms), m)
  {
    assert (ms + [m])[..|ms|] == ms;
  }

  /** Adding records one by one is merging their deduplicated copies. */
  lemma {:induction false} AddAllIsMerge(ms: seq<Movie>)
    ensures AddAll(ms) == MergeMovies(DedupAll(ms))
    decreases |ms|
  {
    if |ms| > 0 {
      var init, m := ms[..|ms| - 1], ms[|ms| - 1];
      AddAllIsMerge(init);
      DedupAllSnoc(ms);
      MergeSnoc(DedupAll(init), Dedup(m));
      AbsorbDedup(AddAll(init), m);
    }
  }

  lemma DedupAllSnoc(ms: seq<Movie>)
    requires |ms| > 0
    ensures DedupAll(ms) == DedupAll(ms[..|ms| - 1]) + [Dedup(ms[|ms| - 1])]
  {
    var a, b := DedupAll(ms), DedupAll(ms[..|ms| - 1]) + [Dedup(ms[|ms| - 1])];
    assert |a| == |b|;
    forall i | 0 <= i < |a| ensures a[i] == b[i] {
      if i < |ms| - 1 {
        assert ms[..|ms| - 1][i] == ms[i];
      }
    }
  }


  lemma AbsorbDedup(acc: seq<Movie>, m: Movie)
    ensures Absorb(acc, Dedup(m)) == AddOrUpdate(acc, m)
  {
    match IndexOfTitle(acc, m.title)
    case Some(i) =>
      AppendNewOfDeduped(acc[i].screenings, m.screenings);
    case None =>
  }

  lemma TitleSetDedup(ms: seq<Movie>)
    ensures TitleSet(DedupAll(ms)) == TitleSet(ms)
  {
    var d := DedupAll(ms);
    assert forall i :: 0 <= i < |ms| ==> d[i].title == ms[i].title;
  }

  lemma FirstIndexDedup(ms: seq<Movie>, t: string)
    ensures FirstIndex(DedupAll(ms), t) == FirstIndex(ms, t)
  {
    var d := DedupAll(ms);
    assert forall i :: 0 <= i < |ms| ==> d[i].title == ms[i].title;
    var r, r' := IndexOfTitle(d, t), IndexOfTitle(ms, t);
    if r.Some? { assert ms[r.value].title == t; }
    if r'.Some? { assert d[r'.value].title == t; }
  }

  /** What the record-by-record insertion guarantees: titles are distinct
      and exactly those of the input, ordered by first occurrence; every
      movie keeps the metadata of the first record with its title, carries
      the union of that title's screening keys, and has no duplicate key. */
  lemma AddAllProperties(ms: seq<Movie>)
    ensures var r := AddAll(ms);
            && DistinctTitles(r)
            && TitleSet(r) == TitleSet(ms)
            && (forall k, l :: 0 <= k < l < |r| ==> FirstIndex(ms, r[k].title) < FirstIndex(ms, r[l].title))
            && (forall k :: 0 <= k < |r| ==>
                  FirstIndex(ms, r[k].title) < |ms|
                  && Meta(r[k]) == Meta(ms[FirstIndex(ms, r[k].title)])
                  && NoDupKeys(r[k].screenings)
                  && Keys(r[k].screenings) == KeysOfTitle(ms, r[k].title))
  {
    var d := DedupAll(ms);
    var r := AddAll(ms);
    AddAllIsMerge(ms);
    TitleSetDedup(ms);
    MergeKeepsFirstMetadata(d);
    MergePreservesNoDup(d);
    MergeUnionsKeys(d);
    forall k | 0 <= k < |r|
      ensures FirstIndex(ms, r[k].title) < |ms|
      ensures Meta(r[k]) == Meta(ms[FirstIndex(ms, r[k].title)])
      ensures Keys(r[k].screenings) == KeysOfTitle(ms, r[k].title)
    {
      FirstIndexDedup(ms, r[k].title);
      KeysOfTitleDedup(ms, r[k].title);
    }
    forall k, l | 0 <= k < l < |r|
      ensures FirstIndex(ms, r[k].title) < FirstIndex(ms, r[l].title)
    {
      FirstIndexDedup(ms, r[k].title);
      FirstIndexDedup(ms, r[l].title);
    }
  }

  lemma {:induction false} KeysOfTitleDedupFrom(ms: seq<Movie>, t: string, from: nat)
    ensures Keys(ScreeningsOfTitle(DedupAll(ms), t, from)) == Keys(ScreeningsOfTitle(ms, t, from))
    decreases |ms|
  {
    if |ms| > from {
      var init := ms[..|ms| - 1];
      assert DedupAll(ms)[..|ms| - 1] == DedupAll(init);
      KeysOfTitleDedupFrom(init, t, from);
      var m := ms[|ms| - 1];
      var tail := if m.title == t then m.screenings else [];
      var tail' := if m.title == t then Dedup(m).screenings else [];
      KeysAppend(ScreeningsOfTitle(init, t, from), tail);
      KeysAppend(ScreeningsOfTitle(DedupAll(init), t, from), tail');
    }
  }

  lemma KeysOfTitleDedup(ms: seq<Movie>, t: string)
    ensures KeysOfTitle(DedupAll(ms), t) == KeysOfTitle(ms, t)
  {
    KeysOfTitleDedupFrom(ms, t, 0);
  }
}
