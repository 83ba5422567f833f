/** The current Node extractor (`MovieParser.js`): the date-page extraction
    from grid containers and popup wrappers, and the legacy listing parse. */
module ParserJs {
  import opened Wrappers
  import opened Text
  import opened Model
  import opened Dom
  import opened NodeExtract
  import opened Merge

  // ---------------------------------------------------------------------------
  // The page date
  // ---------------------------------------------------------------------------

  /** The date every screening of the page is stamped with: the header
      transform when it yields a non-empty string, else the URL `date`
      parameter, else "". */
  function DateText(page: Page): string {
    var chained := HeaderChain(page.header).GetOr("");
    if chained != "" then chained else page.urlDate.GetOr("")
  }

  /** A well-formed header decides the date, whatever the URL says. */
  lemma DateTextOfHeader(page: Page, weekday: string, d: string, m: string, y: string)
    requires page.header == Some(weekday + " " + d + "." + m + "." + y)
    requires ' ' !in weekday
    requires ' ' !in d && ' ' !in m && ' ' !in y
    requires '.' !in d && '.' !in m && '.' !in y
    ensures DateText(page) == "20" + y + "-" + m + "-" + d
  {
    HeaderChainOfDate(weekday, d, m, y);
  }

  /** Without a header, or with a header that has no space, the URL
      parameter is used, and "" when that is missing too. */
  lemma DateTextFallback(page: Page)
    requires page.header.None? || ' ' !in page.header.value
    ensures DateText(page) == page.urlDate.GetOr("")
  {
    if page.header.Some? {
      SplitNoSeparator(page.header.value, ' ');
    }
  }

  // ---------------------------------------------------------------------------
  // Grid containers
  // ---------------------------------------------------------------------------

  /** The title link of a grid container (none without a `div.title`). */
  function GridLink(g: GridBox): Option<Link> {
    match g.title
    case Some(tb) => TitleLink(tb)
    case None => None
  }

  /** The screenings of a grid container: each time text trimmed, the empty
      ones dropped, each stamped with the page date. */
  function GridShowings(times: seq<string>, date: string): (r: seq<Screening>)
    ensures |r| <= |times|
    ensures forall s :: s in r ==> s.venue == VenueEnglish && s.language.None? && s.subtitles.None?
    ensures forall s :: s in r ==>
              exists i :: 0 <= i < |times| && Trim(times[i]) != "" && s.dateTime == Stamp(date, Trim(times[i]))
    ensures forall i :: 0 <= i < |times| && Trim(times[i]) != "" ==>
              Showing(Stamp(date, Trim(times[i])), VenueEnglish) in r
    decreases |times|
  {
    if |times| == 0 then []
    else
      var t := Trim(times[0]);
      var head := if t == "" then [] else [Showing(Stamp(date, t), VenueEnglish)];
      var rest := GridShowings(times[1..], date);
      assert forall i :: 1 <= i < |times| ==> times[i] == times[1..][i - 1];
      head + rest
  }

  /** The record of one grid container, or none when its title link is
      missing or has only whitespace. */
  function GridRecord(g: GridBox, date: string): (r: Option<Movie>)
    ensures r.None? <==> LinkTitle(GridLink(g)) == ""
    ensures r.Some? ==> r.value.title != "" && Trimmed(r.value.title)
    ensures r.Some? ==> r.value.year.Some? ==> 0 <= r.value.year.value <= 9999
    ensures r.Some? ==> r.value.imgUrl.Some? ==> r.value.imgUrl.value != ""
    ensures r.Some? ==> r.value.siteUrl.Some? ==> r.value.siteUrl.value != ""
    ensures r.Some? ==> r.value.screenings == GridShowings(g.anyTimes, date)
  {
    var link := GridLink(g);
    var title := LinkTitle(link);
    if title == "" then None
    else
      TrimmedIff(link.value.text);
      var paragraph := match g.title case Some(tb) => tb.paragraph case None => None;
      var description := FirstTruthy(g.paragraphText, g.descText).GetOr("");
      var year := YearOf(paragraph);
      var img := FirstTruthy(g.wrapperImg, g.ownImg);
      var site := Truthy(link.value.href);
      assert img.Some? ==> img.value != "";
      assert site.Some? ==> site.value != "";
      assert year.Some? ==> 0 <= year.value <= 9999;
      Some(Movie(title, None, AltName(description), year, None, img, site, GridShowings(g.anyTimes, date)))
  }

  /** The records of the grid containers, in document order, skipped ones left out. */
  function GridSeeds(grids: seq<GridBox>, date: string): (r: seq<Movie>)
    ensures |r| <= |grids|
    ensures forall k :: 0 <= k < |r| ==> r[k].title != "" && Trimmed(r[k].title)
  {
    var recs := seq(|grids|, i requires 0 <= i < |grids| => GridRecord(grids[i], date));
    var r := Somes(recs);
    assert forall k :: 0 <= k < |r| ==> exists j :: 0 <= j < |grids| && GridRecord(grids[j], date) == Some(r[k]);
    r
  }

  // ---------------------------------------------------------------------------
  // Popup wrappers
  // ---------------------------------------------------------------------------

  /** The single screening a wrapper gives each of its titles: its time
      marker, trimmed, stamped with the page date; none without a marker. */
  function WrapperShowings(time: Option<string>, date: string): (r: seq<Screening>)
    ensures |r| <= 1
    ensures |r| == 1 <==> time.Some? && Trim(time.value) != ""
    ensures |r| == 1 ==> r[0] == Showing(Stamp(date, Trim(time.value)), VenueEnglish)
  {
    if time.Some? && Trim(time.value) != "" then [Showing(Stamp(date, Trim(time.value)), VenueEnglish)] else []
  }

  /** The record of one title inside a wrapper, or none when its title link
      is missing or blank. */
  function WrapperRecord(wt: WrapperTitle, time: Option<string>, date: string): (r: Option<Movie>)
    ensures r.None? <==> LinkTitle(TitleLink(wt.block)) == ""
    ensures r.Some? ==> r.value.title != "" && Trimmed(r.value.title)
    ensures r.Some? ==> r.value.imgUrl.None? && r.value.screenings == WrapperShowings(time, date)
  {
    var link := TitleLink(wt.block);
    var title := LinkTitle(link);
    if title == "" then None
    else
      TrimmedIff(link.value.text);
      var site := Truthy(link.value.href);
      Some(Movie(title, None, AltName(wt.desc.GetOr("")), YearOf(wt.block.paragraph), None, None, site,
                 WrapperShowings(time, date)))
  }

  /** What every record taken from a wrapper looks like. */
  predicate WrapperShaped(m: Movie, time: Option<string>, date: string) {
    && m.title != "" && Trimmed(m.title)
    && m.imgUrl.None? && m.screenings == WrapperShowings(time, date)
  }

  /** The records of the titles of one wrapper, in document order. */
  function TitleSeeds(titles: seq<WrapperTitle>, time: Option<string>, date: string): (r: seq<Movie>)
    ensures |r| <= |titles|
    ensures forall k :: 0 <= k < |r| ==> WrapperShaped(r[k], time, date)
    decreases |titles|
  {
    if |titles| == 0 then []
    else
      var prev := TitleSeeds(titles[..|titles| - 1], time, date);
      var rec := WrapperRecord(titles[|titles| - 1], time, date);
      if rec.None? then prev
      else
        var r := prev + [rec.value];
        assert WrapperShaped(rec.value, time, date);
        assert forall k :: 0 <= k < |r| ==> WrapperShaped(r[k], time, date) by {
          forall k | 0 <= k < |r| ensures WrapperShaped(r[k], time, date) {
            if k < |prev| { assert r[k] == prev[k]; } else { assert r[k] == rec.value; }
          }
        }
        r
  }

  function WrapperSeeds(wrappers: seq<Wrapper>, date: string): (r: seq<Movie>)
    ensures forall k :: 0 <= k < |r| ==> r[k].imgUrl.None? && |r[k].screenings| <= 1
    ensures forall k :: 0 <= k < |r| ==> r[k].title != "" && Trimmed(r[k].title)
    decreases |wrappers|
  {
    if |wrappers| == 0 then []
    else
      var w := wrappers[|wrappers| - 1];
      WrapperSeeds(wrappers[..|wrappers| - 1], date) + TitleSeeds(w.titles, w.time, date)
  }

  // ---------------------------------------------------------------------------
  // `parseFromDateHtml`
  // ---------------------------------------------------------------------------

  /** Every record the page yields, grid containers first, then wrappers. */
  function Seeds(page: Page): seq<Movie> {
    var date := DateText(page);
    GridSeeds(page.grids, date) + WrapperSeeds(page.wrappers, date)
  }

  /** `parseFromDateHtml`: the records added one by one into a title-keyed map. */
  function ParseFromDateHtml(page: Page): (r: seq<Movie>)
    ensures DistinctTitles(r)
    ensures TitleSet(r) == TitleSet(Seeds(page))
    ensures forall k :: 0 <= k < |r| ==> NoDupKeys(r[k].screenings)
  {
    AddAllProperties(Seeds(page));
    AddAll(Seeds(page))
  }

  /** No record without a title survives: every output title is non-empty
      and trimmed. */
  lemma ParseSkipsUntitled(page: Page)
    ensures forall k :: 0 <= k < |ParseFromDateHtml(page)| ==>
              ParseFromDateHtml(page)[k].title != "" && Trimmed(ParseFromDateHtml(page)[k].title)
  {
    var r := ParseFromDateHtml(page);
    var seeds := Seeds(page);
    forall k | 0 <= k < |r| ensures r[k].title != "" && Trimmed(r[k].title) {
      assert r[k].title in TitleSet(r);
      var j :| 0 <= j < |seeds| && seeds[j].title == r[k].title;
    }
  }

  /** Each parsed movie carries the metadata of the first record with its
      title, and its screening keys are the union over all of that title's
      records. Grid containers come first, so a title found in a grid
      container takes its metadata from there, never from a wrapper. */
  lemma ParseFirstRecordWins(page: Page)
    ensures var r := ParseFromDateHtml(page);
            var seeds := Seeds(page);
            var g := GridSeeds(page.grids, DateText(page));
            forall k :: 0 <= k < |r| ==>
              && FirstIndex(seeds, r[k].title) < |seeds|
              && Meta(r[k]) == Meta(seeds[FirstIndex(seeds, r[k].title)])
              && Keys(r[k].screenings) == KeysOfTitle(seeds, r[k].title)
              && (FirstIndex(g, r[k].title) < |g| ==> Meta(r[k]) == Meta(g[FirstIndex(g, r[k].title)]))
  {
    var r := ParseFromDateHtml(page);
    var seeds := Seeds(page);
    var date := DateText(page);
    var g, w := GridSeeds(page.grids, date), WrapperSeeds(page.wrappers, date);
    assert seeds == g + w;
    assert r == AddAll(seeds);
    AddAllProperties(seeds);
    forall k | 0 <= k < |r|
      ensures FirstIndex(seeds, r[k].title) < |seeds|
      ensures Meta(r[k]) == Meta(seeds[FirstIndex(seeds, r[k].title)])
      ensures Keys(r[k].screenings) == KeysOfTitle(seeds, r[k].title)
      ensures FirstIndex(g, r[k].title) < |g| ==> Meta(r[k]) == Meta(g[FirstIndex(g, r[k].title)])
    {
      var t := r[k].title;
      if FirstIndex(g, t) < |g| {
        FirstIndexPrefix(g, w, t);
        assert seeds[FirstIndex(g, t)] == g[FirstIndex(g, t)];
      }
    }
  }

  // ---------------------------------------------------------------------------
  // The legacy listing parse, identical in `MovieParser.js` and `MovieParser.ts`
  // ---------------------------------------------------------------------------

  /** The screening of one `div.n_block_r`: its text split on '|' into
      trimmed pieces; with at least three pieces, the first and the third
      joined by a space, at the Hebrew-named venue. */
  function LegacyShowing(p: Option<string>): (r: Option<Screening>)
    ensures r.Some? <==> multiset(p.GetOr(""))['|'] >= 2
    ensures r.Some? ==> r.value.venue == VenueHebrew
  {
    var text := Trim(p.GetOr(""));
    var parts := Split(text, '|');
    SplitCount(text, '|');
    TrimKeepsCount(p.GetOr(""), IsJsSpace, '|');
    if |parts| >= 3 then Some(Showing(Trim(parts[0]) + " " + Trim(parts[2]), VenueHebrew)) else None
  }

  /** The text of such a block is already trimmed and splits into its
      three space-padded pieces. */
  lemma LegacyPieces(date: string, weekday: string, time: string)
    requires '|' !in date && '|' !in weekday && '|' !in time
    requires |date| > 0 && !IsJsSpace(date[0])
    requires |time| > 0 && !IsJsSpace(time[|time| - 1])
    ensures var text := date + " | " + weekday + " | " + time;
            Trim(text) == text && Split(text, '|') == [date + " ", " " + weekday + " ", " " + time]
  {
    var text := date + " | " + weekday + " | " + time;
    var a, b, c := date + " ", " " + weekday + " ", " " + time;
    assert text == a + ['|'] + b + ['|'] + c;
    JoinThree(a, b, c, '|');
    assert '|' !in a && '|' !in b && '|' !in c;
    SplitJoin([a, b, c], '|');
    assert text[0] == date[0] && text[|text| - 1] == time[|time| - 1];
    TrimUnchanged(text, IsJsSpace);
  }

  /** "25-01-2025 | שבת | 11:00" gives the screening "25-01-2025 11:00". */
  lemma LegacyShowingOfText(date: string, weekday: string, time: string)
    requires '|' !in date && '|' !in weekday && '|' !in time
    requires |date| > 0 && !IsJsSpace(date[0]) && !IsJsSpace(date[|date| - 1])
    requires |time| > 0 && !IsJsSpace(time[0]) && !IsJsSpace(time[|time| - 1])
    ensures LegacyShowing(Some(date + " | " + weekday + " | " + time)) == Some(Showing(date + " " + time, VenueHebrew))
  {
    LegacyPieces(date, weekday, time);
    PaddedPieces(date, time);
  }

  lemma PaddedPieces(date: string, time: string)
    requires |date| > 0 && !IsJsSpace(date[0]) && !IsJsSpace(date[|date| - 1])
    requires |time| > 0 && !IsJsSpace(time[0]) && !IsJsSpace(time[|time| - 1])
    ensures Trim(date + " ") == date && Trim(" " + time) == time
  {
    TrimPadded("", date, " ", IsJsSpace);
    assert "" + date + " " == date + " ";
    TrimPadded(" ", time, "", IsJsSpace);
    assert " " + time + "" == " " + time;
  }

  function LegacyShowings(blocks: seq<Option<string>>): (r: seq<Screening>)
    ensures |r| <= |blocks|
    ensures forall s :: s in r ==> s.venue == VenueHebrew
    decreases |blocks|
  {
    if |blocks| == 0 then []
    else
      var prev := LegacyShowings(blocks[..|blocks| - 1]);
      match LegacyShowing(blocks[|blocks| - 1])
      case Some(s) => prev + [s]
      case None => prev
  }

  /** The key of a legacy block: its trimmed `h3` text, "" allowed. */
  function LegacyTitle(b: LegacyBlock): string {
    Trim(b.h3.GetOr(""))
  }

  /** A block as the grouping sees it: its key and its screenings. */
  datatype Entry = Entry(title: string, showings: seq<Screening>)

  function Entries(blocks: seq<LegacyBlock>): (es: seq<Entry>)
    ensures |es| == |blocks|
    ensures forall i :: 0 <= i < |blocks| ==> es[i] == Entry(LegacyTitle(blocks[i]), LegacyShowings(blocks[i].blocks))
  {
    seq(|blocks|, i requires 0 <= i < |blocks| => Entry(LegacyTitle(blocks[i]), LegacyShowings(blocks[i].blocks)))
  }

  /** A movie with only a title and the given screenings. */
  function Bare(title: string, ss: seq<Screening>): Movie {
    Movie(title, None, None, None, None, None, None, ss)
  }

  /** One block of the legacy parse: a new title enters with the block's
      screenings; a known title has them appended, repeats included. */
  function Gather(acc: seq<Movie>, e: Entry): seq<Movie> {
    match IndexOfTitle(acc, e.title)
    case Some(i) => acc[i := acc[i].(screenings := acc[i].screenings + e.showings)]
    case None => acc + [Bare(e.title, e.showings)]
  }

  /** The block-by-block gathering into a title-keyed map. */
  function Group(es: seq<Entry>): seq<Movie>
    decreases |es|
  {
    if |es| == 0 then [] else Gather(Group(es[..|es| - 1]), es[|es| - 1])
  }

  /** `parse`: the legacy listing, one movie per distinct block title. */
  function LegacyParse(blocks: seq<LegacyBlock>): seq<Movie> {
    Group(Entries(blocks))
  }

  /** The titles of the entries. */
  function EntryTitles(es: seq<Entry>): set<string>
    decreases |es|
  {
    if |es| == 0 then {} else EntryTitles(es[..|es| - 1]) + {es[|es| - 1].title}
  }

  /** All screenings of the entries titled `t`, in page order. */
  function ShowingsOf(es: seq<Entry>, t: string): seq<Screening>
    decreases |es|
  {
    if |es| == 0 then []
    else ShowingsOf(es[..|es| - 1], t) + (if es[|es| - 1].title == t then es[|es| - 1].showings else [])
  }

  /** The map after some prefix of the entries: one movie per title seen,
      holding exactly that title's screenings. */
  predicate Grouped(r: seq<Movie>, es: seq<Entry>) {
    && DistinctTitles(r)
    && TitleSet(r) == EntryTitles(es)
    && forall k :: 0 <= k < |r| ==> r[k] == Bare(r[k].title, ShowingsOf(es, r[k].title))
  }

  /** The gathering yields each entry title exactly once, and each movie
      holds exactly the screenings of all entries with its title, in order
      and without deduplication. */
  lemma {:induction false} GroupGroups(es: seq<Entry>)
    ensures Grouped(Group(es), es)
    decreases |es|
  {
    if |es| > 0 {
      var init, e := es[..|es| - 1], es[|es| - 1];
      assert es == init + [e];
      GroupGroups(init);
      if IndexOfTitle(Group(init), e.title).Some? {
        GatherKnown(init, e);
      } else {
        GatherFresh(init, e);
      }
    }
  }

  /** One more entry adds its screenings to its own title only. */
  lemma ShowingsOfSnoc(init: seq<Entry>, e: Entry, t: string)
    ensures ShowingsOf(init + [e], t) == ShowingsOf(init, t) + (if e.title == t then e.showings else [])
  {
    assert (init + [e])[..|init|] == init;
  }

  lemma EntryTitlesSnoc(init: seq<Entry>, e: Entry)
    ensures EntryTitles(init + [e]) == EntryTitles(init) + {e.title}
  {
    assert (init + [e])[..|init|] == init;
  }

  /** A block whose title is already in the map extends that movie only. */
  lemma GatherKnown(init: seq<Entry>, e: Entry)
    requires Grouped(Group(init), init)
    requires IndexOfTitle(Group(init), e.title).Some?
    ensures Grouped(Group(init + [e]), init + [e])
  {
    var es := init + [e];
    assert es[..|es| - 1] == init;
    var prev := Group(init);
    var i := IndexOfTitle(prev, e.title).value;
    var r := prev[i := prev[i].(screenings := prev[i].screenings + e.showings)];
    assert Group(es) == r;
    EntryTitlesSnoc(init, e);
    forall k | 0 <= k < |r|
      ensures r[k] == Bare(r[k].title, ShowingsOf(es, r[k].title))
    {
      KnownAt(prev, init, e, i, k);
    }
    assert TitleSet(r) == TitleSet(prev) by {
      forall x | x in TitleSet(r) ensures x in TitleSet(prev) {
        var k :| 0 <= k < |r| && r[k].title == x;
        assert prev[k].title == x;
      }
      forall x | x in TitleSet(prev) ensures x in TitleSet(r) {
        var k :| 0 <= k < |prev| && prev[k].title == x;
        assert r[k].title == x;
      }
    }
  }

  /** The movie at `k` after a known-title entry `e` was gathered. */
  lemma KnownAt(prev: seq<Movie>, init: seq<Entry>, e: Entry, i: nat, k: nat)
    requires Grouped(prev, init)
    requires i < |prev| && prev[i].title == e.title && k < |prev|
    ensures var r := prev[i := prev[i].(screenings := prev[i].screenings + e.showings)];
            r[k] == Bare(r[k].title, ShowingsOf(init + [e], r[k].title))
  {
    ShowingsOfSnoc(init, e, prev[k].title);
    if k != i {
      assert prev[k].title != e.title;
    }
  }

  /** A block with a new title adds one movie at the end. */
  lemma GatherFresh(init: seq<Entry>, e: Entry)
    requires Grouped(Group(init), init)
    requires IndexOfTitle(Group(init), e.title).None?
    ensures Grouped(Group(init + [e]), init + [e])
  {
    var es := init + [e];
    assert es[..|es| - 1] == init;
    var prev := Group(init);
    var r := prev + [Bare(e.title, e.showings)];
    assert Group(es) == r;
    EntryTitlesSnoc(init, e);
    InTitleSet(prev, e.title);
    ShowingsOfAbsent(init, e.title);
    forall k | 0 <= k < |r| ensures r[k] == Bare(r[k].title, ShowingsOf(es, r[k].title)) {
      FreshAt(prev, init, e, k);
    }
    TitleSetAppend(prev, Bare(e.title, e.showings));
  }

  /** The movie at `k` after a new-title entry `e` was gathered. */
  lemma FreshAt(prev: seq<Movie>, init: seq<Entry>, e: Entry, k: nat)
    requires Grouped(prev, init)
    requires e.title !in TitleSet(prev) && ShowingsOf(init, e.title) == []
    requires k <= |prev|
    ensures var r := prev + [Bare(e.title, e.showings)];
            r[k] == Bare(r[k].title, ShowingsOf(init + [e], r[k].title))
  {
    var r := prev + [Bare(e.title, e.showings)];
    ShowingsOfSnoc(init, e, r[k].title);
    if k < |prev| {
      assert r[k] == prev[k];
    }
  }

  lemma {:induction false} ShowingsOfAbsent(es: seq<Entry>, t: string)
    requires t !in EntryTitles(es)
    ensures ShowingsOf(es, t) == []
    decreases |es|
  {
    if |es| > 0 {
      ShowingsOfAbsent(es[..|es| - 1], t);
    }
  }

  /** The titles of the legacy blocks. */
  function LegacyTitleSet(blocks: seq<LegacyBlock>): set<string> {
    set i | 0 <= i < |blocks| :: LegacyTitle(blocks[i])
  }

  lemma {:induction false} EntryTitlesAreTitles(es: seq<Entry>)
    ensures EntryTitles(es) == set i | 0 <= i < |es| :: es[i].title
    decreases |es|
  {
    if |es| > 0 {
      var init := es[..|es| - 1];
      EntryTitlesAreTitles(init);
      assert forall i :: 0 <= i < |init| ==> init[i] == es[i];
    }
  }

  /** The legacy parse yields one movie per distinct block title, and each
      movie holds exactly the screenings of all blocks with its title, in
      page order and without deduplication. */
  lemma LegacyParseGroups(blocks: seq<LegacyBlock>)
    ensures var r := LegacyParse(blocks);
            && DistinctTitles(r)
            && TitleSet(r) == LegacyTitleSet(blocks)
            && forall k :: 0 <= k < |r| ==> r[k] == Bare(r[k].title, ShowingsOf(Entries(blocks), r[k].title))
  {
    var es := Entries(blocks);
    GroupGroups(es);
    EntryTitlesAreTitles(es);
    assert LegacyTitleSet(blocks) == set i | 0 <= i < |es| :: es[i].title by {
      forall t | t in LegacyTitleSet(blocks) ensures t in set i | 0 <= i < |es| :: es[i].title {
        var i :| 0 <= i < |blocks| && LegacyTitle(blocks[i]) == t;
        assert es[i].title == t;
      }
    }
  }
}
