/** The merge as the two controllers write it: a loop over the flattened
    records that looks the title up among the records kept so far
    (`Array.from(allMovies).find`), and either appends the incoming
    screenings whose key is absent (`existing.screenings.some(...)`, `push`)
    or keeps the record. `BatchedFetcher._mergeMovies` runs the same steps
    through a `Map`. Each loop is shown to compute the fold `Merge.MergeMovies`. */
module MergeLoop {
  import opened Wrappers
  import opened Model
  import opened Merge

  /** `ss.some(e => e.dateTime === s.dateTime && e.venue === s.venue)`. */
  method SomeSameKey(ss: seq<Screening>, s: Screening) returns (found: bool)
    ensures found <==> exists i :: 0 <= i < |ss| && KeyOf(ss[i]) == KeyOf(s)
  {
    found := false;
    var i := 0;
    while i < |ss|
      invariant 0 <= i <= |ss|
      invariant !found
      invariant forall j :: 0 <= j < i ==> KeyOf(ss[j]) != KeyOf(s)
    {
      if KeyOf(ss[i]) == KeyOf(s) {
        return true;
      }
      i := i + 1;
    }
  }

  /** `movie.screenings.forEach(...)`: push every incoming screening whose key
      is not yet in the list, checking against the list as it grows. */
  method PushNew(existing: seq<Screening>, incoming: seq<Screening>) returns (r: seq<Screening>)
    ensures r == AppendNew(existing, incoming)
    ensures existing <= r && Keys(r) == Keys(existing) + Keys(incoming)
  {
    r := existing;
    var j := 0;
    while j < |incoming|
      invariant 0 <= j <= |incoming|
      invariant AppendNew(r, incoming[j..]) == AppendNew(existing, incoming)
    {
      assert incoming[j..][0] == incoming[j] && incoming[j..][1..] == incoming[j + 1..];
      var dup := SomeSameKey(r, incoming[j]);
      if !dup {
        r := r + [incoming[j]];
      }
      j := j + 1;
    }
    assert incoming[j..] == [];
  }

  /** `Array.from(allMovies).find(m => m.title === movie.title)`, as a
      position. */
  method FindTitle(ms: seq<Movie>, t: string) returns (r: Option<nat>)
    ensures r.Some? ==> r.value < |ms| && ms[r.value].title == t
    ensures r.Some? ==> forall j :: 0 <= j < r.value ==> ms[j].title != t
    ensures r.None? <==> forall j :: 0 <= j < |ms| ==> ms[j].title != t
  {
    var i := 0;
    while i < |ms|
      invariant 0 <= i <= |ms|
      invariant forall j :: 0 <= j < i ==> ms[j].title != t
    {
      if ms[i].title == t {
        return Some(i);
      }
      i := i + 1;
    }
    return None;
  }

  /** One pass of the loop body: look the title up, then either append the
      new screenings to the kept record or keep the incoming record. */
  method AbsorbOne(all: seq<Movie>, m: Movie) returns (r: seq<Movie>)
    ensures r == Absorb(all, m)
  {
    var found := FindTitle(all, m.title);
    IndexOfTitleUnique(all, m.title, found);
    match found {
      case Some(i) =>
        var merged := PushNew(all[i].screenings, m.screenings);
        r := all[i := all[i].(screenings := merged)];
      case None =>
        r := all + [m];
    }
  }

  /** The controllers' merge loop over `moviesArrays.flat()`. It computes
      the fold: distinct titles in order of first occurrence, the first
      record's metadata, and the union of screening keys per title. */
  method MergeAll(movies: seq<Movie>) returns (all: seq<Movie>)
    ensures all == MergeMovies(movies)
    ensures DistinctTitles(all) && TitleSet(all) == TitleSet(movies)
  {
    all := [];
    var k := 0;
    while k < |movies|
      invariant 0 <= k <= |movies|
      invariant all == MergeMovies(movies[..k])
    {
      all := AbsorbOne(all, movies[k]);
      MergePrefixStep(movies, k);
      k := k + 1;
    }
    assert movies[..k] == movies;
  }

  /** Extending the prefix by one record absorbs that record. */
  lemma MergePrefixStep(movies: seq<Movie>, k: nat)
    requires k < |movies|
    ensures MergeMovies(movies[..k + 1]) == Absorb(MergeMovies(movies[..k]), movies[k])
  {
    assert movies[..k + 1][..k] == movies[..k];
  }

  /** The first position of a title is unique: whatever satisfies the search
      contract is `IndexOfTitle`. */
  lemma IndexOfTitleUnique(ms: seq<Movie>, t: string, r: Option<nat>)
    requires r.Some? ==> r.value < |ms| && ms[r.value].title == t
    requires r.Some? ==> forall j :: 0 <= j < r.value ==> ms[j].title != t
    requires r.None? <==> forall j :: 0 <= j < |ms| ==> ms[j].title != t
    ensures r == IndexOfTitle(ms, t)
  {
  }
}
