/** The Kotlin extractor (`MovieParser.kt`): the legacy listing parse into a
    title-keyed map of movies whose screenings are insertion-ordered sets, and
    the date-page parse, which throws instead of producing records when the
    header date does not have the expected shape. */
module ParserKt {
  import opened Wrappers
  import opened Text
  import opened Model
  import opened Dom
  import opened NodeExtract
  import opened Merge
  import opened KotlinModel
  import opened Jsoup
  import ParserJs
  import ParserTs

  // ---------------------------------------------------------------------------
  // parse: the legacy listing
  // ---------------------------------------------------------------------------

  /** One screening text "<date> | <weekday> | <time>": Kotlin-trimmed,
      split on '|', pieces trimmed; three or more pieces give a screening at
      the Hebrew venue, fewer give none. */
  function KtShowingOfText(text: string): (r: Option<Screening>)
    ensures r.Some? <==> multiset(text)['|'] >= 2
    ensures r.Some? ==> r.value.venue == VenueHebrew && r.value.language.None? && r.value.subtitles.None?
  {
    var t := KTrim(text);
    var parts := Split(t, '|');
    SplitCount(t, '|');
    TrimKeepsCount(text, IsKotlinSpace, '|');
    if |parts| >= 3 then Some(Showing(KTrim(parts[0]) + " " + KTrim(parts[2]), VenueHebrew)) else None
  }

  /** One `div.n_block_r`, given the texts of its `p` elements: the
      screening of Jsoup's joined text, so one exactly when the `p`
      elements hold two bars between them. */
  function KtLegacyShowing(ps: seq<string>): (r: Option<Screening>)
    ensures r.Some? <==> Occurrences(ps, '|') >= 2
    ensures r.Some? ==> r.value.venue == VenueHebrew && r.value.language.None? && r.value.subtitles.None?
  {
    ElementsTextKeepsCount(ps, '|');
    KtShowingOfText(ElementsText(ps))
  }

  /** A block with one `p` whose text is already normalised is read as
      that text. */
  lemma KtLegacyShowingOfOne(p: string)
    requires Normalised(p)
    ensures KtLegacyShowing([p]) == KtShowingOfText(p)
  {
    ElementsTextOfOne(p);
  }

  /** The screenings of one title block, in block order. */
  function KtLegacyShowings(blocks: seq<seq<string>>): (r: seq<Screening>)
    ensures |r| <= |blocks|
  {
    Somes(seq(|blocks|, i requires 0 <= i < |blocks| => KtLegacyShowing(blocks[i])))
  }

  /** The map key of a block: the joined text of its `h3` elements,
      Kotlin-trimmed ("" when it has none). */
  function KtLegacyTitle(b: LegacyBlock): string {
    KTrim(ElementsText(b.h3s))
  }

  /** Each title block as its key and its screenings. */
  function KtEntries(blocks: seq<LegacyBlock>): (es: seq<ParserJs.Entry>)
    ensures |es| == |blocks|
    ensures forall i :: 0 <= i < |blocks| ==>
              es[i] == ParserJs.Entry(KtLegacyTitle(blocks[i]), KtLegacyShowings(blocks[i].blockParagraphs))
  {
    seq(|blocks|, i requires 0 <= i < |blocks| =>
      ParserJs.Entry(KtLegacyTitle(blocks[i]), KtLegacyShowings(blocks[i].blockParagraphs)))
  }

  /** `getOrPut(title) { Movie(title = title) }` followed by `screenings.add`
      for each screening of the block. */
  function KtGather(acc: seq<Movie>, e: ParserJs.Entry): seq<Movie> {
    match IndexOfTitle(acc, e.title)
    case Some(i) => acc[i := acc[i].(screenings := AppendNew(acc[i].screenings, e.showings))]
    case None => acc + [NewMovie(e.title).(screenings := AppendNew([], e.showings))]
  }

  function KtGroup(es: seq<ParserJs.Entry>): seq<Movie>
    decreases |es|
  {
    if |es| == 0 then [] else KtGather(KtGroup(es[..|es| - 1]), es[|es| - 1])
  }

  /** `parse`: the map's values, collected by `toSet()`. */
  function KtParse(blocks: seq<LegacyBlock>): seq<Movie> {
    ToMovieSet(KtGroup(KtEntries(blocks)))
  }

  /** The titles of the legacy blocks, as the Kotlin parse keys them. */
  function KtLegacyTitleSet(blocks: seq<LegacyBlock>): set<string> {
    set i | 0 <= i < |blocks| :: KtLegacyTitle(blocks[i])
  }

  /** Each block as a record with only a title and its screenings. */
  function Bares(es: seq<ParserJs.Entry>): (ms: seq<Movie>)
    ensures |ms| == |es|
    ensures forall i :: 0 <= i < |es| ==> ms[i] == ParserJs.Bare(es[i].title, es[i].showings)
  {
    seq(|es|, i requires 0 <= i < |es| => ParserJs.Bare(es[i].title, es[i].showings))
  }

  /** One Kotlin block step is one step of the Node extractor's add-or-update. */
  lemma KtGatherIsAddOrUpdate(acc: seq<Movie>, e: ParserJs.Entry)
    ensures KtGather(acc, e) == AddOrUpdate(acc, ParserJs.Bare(e.title, e.showings))
  {
  }

  /** The Kotlin grouping is the record-by-record insertion of bare records. */
  lemma {:induction false} KtGroupIsAddAll(es: seq<ParserJs.Entry>)
    ensures KtGroup(es) == AddAll(Bares(es))
    decreases |es|
  {
    if |es| > 0 {
      var init, e := es[..|es| - 1], es[|es| - 1];
      KtGroupIsAddAll(init);
      assert Bares(es)[..|es| - 1] == Bares(init);
      KtGatherIsAddOrUpdate(KtGroup(init), e);
    }
  }

  /** Deduplicating changes no title, so lookups by title agree. */
  lemma IndexOfTitleDedup(ms: seq<Movie>, t: string)
    ensures IndexOfTitle(DedupAll(ms), t) == IndexOfTitle(ms, t)
  {
    FirstIndexDedup(ms, t);
  }

  /** One block step commutes with turning screening lists into sets. */
  lemma KtGatherDedup(g: seq<Movie>, e: ParserJs.Entry)
    ensures KtGather(DedupAll(g), e) == DedupAll(ParserJs.Gather(g, e))
  {
    IndexOfTitleDedup(g, e.title);
    var d := DedupAll(g);
    match IndexOfTitle(g, e.title)
    case Some(i) =>
      AppendNewConcat([], g[i].screenings, e.showings);
      var lhs, rhs := KtGather(d, e), DedupAll(ParserJs.Gather(g, e));
      assert lhs == d[i := d[i].(screenings := AppendNew(d[i].screenings, e.showings))];
      assert |lhs| == |rhs|;
      forall k | 0 <= k < |lhs| ensures lhs[k] == rhs[k] {
        if k == i {
          assert rhs[k] == Dedup(g[i].(screenings := g[i].screenings + e.showings));
        } else {
          assert lhs[k] == d[k] == Dedup(g[k]);
        }
      }
    case None =>
      var lhs, rhs := KtGather(d, e), DedupAll(ParserJs.Gather(g, e));
      assert lhs == d + [NewMovie(e.title).(screenings := AppendNew([], e.showings))];
      assert ParserJs.Gather(g, e) == g + [ParserJs.Bare(e.title, e.showings)];
      assert |lhs| == |rhs|;
      forall k | 0 <= k < |lhs| ensures lhs[k] == rhs[k] {
        if k < |g| {
          assert lhs[k] == d[k] == Dedup(g[k]);
        }
      }
  }

  /** The Kotlin grouping is the Node grouping with every movie's screening
      list turned into a set: the same titles in the same order, and for
      each the first screening of every key. */
  lemma {:induction false} KtGroupVersusJs(es: seq<ParserJs.Entry>)
    ensures KtGroup(es) == DedupAll(ParserJs.Group(es))
    decreases |es|
  {
    if |es| > 0 {
      var init, e := es[..|es| - 1], es[|es| - 1];
      KtGroupVersusJs(init);
      KtGatherDedup(ParserJs.Group(init), e);
    }
  }

  /** What `parse` returns: one movie per distinct block title, every other
      field at its default, and as screenings the first screening of every
      key over all blocks with that title, in page order. */
  lemma KtParseGroups(blocks: seq<LegacyBlock>)
    ensures var r := KtParse(blocks);
            var es := KtEntries(blocks);
            && DistinctTitles(r)
            && TitleSet(r) == KtLegacyTitleSet(blocks)
            && forall k :: 0 <= k < |r| ==>
                 && Meta(r[k]) == NewMovie(r[k].title)
                 && r[k].screenings == AppendNew([], ParserJs.ShowingsOf(es, r[k].title))
                 && NoDupKeys(r[k].screenings)
  {
    var es := KtEntries(blocks);
    var g := ParserJs.Group(es);
    ParserJs.GroupGroups(es);
    KtGroupVersusJs(es);
    DedupGrouped(g, es);
    ToMovieSetOfDistinct(DedupAll(g));
    KtTitles(blocks);
  }

  /** Turning a grouping's screening lists into sets keeps its titles and
      makes each movie's screenings the set of that title's screenings. */
  lemma DedupGrouped(g: seq<Movie>, es: seq<ParserJs.Entry>)
    requires ParserJs.Grouped(g, es)
    ensures var d := DedupAll(g);
            && DistinctTitles(d)
            && TitleSet(d) == ParserJs.EntryTitles(es)
            && forall k :: 0 <= k < |d| ==>
                 && Meta(d[k]) == NewMovie(d[k].title)
                 && d[k].screenings == AppendNew([], ParserJs.ShowingsOf(es, d[k].title))
                 && NoDupKeys(d[k].screenings)
  {
    var d := DedupAll(g);
    TitleSetDedup(g);
    forall i, j | 0 <= i < j < |d| ensures d[i].title != d[j].title {
      assert d[i].title == g[i].title && d[j].title == g[j].title;
    }
    forall k | 0 <= k < |d|
      ensures Meta(d[k]) == NewMovie(d[k].title)
      ensures d[k].screenings == AppendNew([], ParserJs.ShowingsOf(es, d[k].title))
    {
      assert g[k] == ParserJs.Bare(g[k].title, ParserJs.ShowingsOf(es, g[k].title));
    }
  }

  /** The entry titles are the Kotlin block titles. */
  lemma KtTitles(blocks: seq<LegacyBlock>)
    ensures ParserJs.EntryTitles(KtEntries(blocks)) == KtLegacyTitleSet(blocks)
  {
    var es := KtEntries(blocks);
    ParserJs.EntryTitlesAreTitles(es);
    forall t | t in KtLegacyTitleSet(blocks) ensures t in set i | 0 <= i < |es| :: es[i].title {
      var i :| 0 <= i < |blocks| && KtLegacyTitle(blocks[i]) == t;
      assert es[i].title == t;
    }
  }

  // ---------------------------------------------------------------------------
  // parseFromDateHtml
  // ---------------------------------------------------------------------------

  /** The header chain with plain indexing on the header text: its second
      space-separated token ("" when there is none), split on '.', read as
      day, month and two-digit year. Absent stands for the
      `IndexOutOfBoundsException` thrown when a piece is missing; pieces
      after the third are ignored. */
  function KtDate(text: string): (r: Option<string>)
    ensures var tokens := Split(text, ' ');
            r.Some? <==> |tokens| >= 2 && |Split(tokens[1], '.')| >= 3
    ensures r.Some? ==> var parts := Split(Split(text, ' ')[1], '.');
                        r.value == "20" + parts[2] + "-" + parts[1] + "-" + parts[0]
  {
    var tokens := Split(text, ' ');
    if |tokens| < 2 then None
    else
      var parts := Split(tokens[1], '.');
      if |parts| < 3 then None
      else Some("20" + parts[2] + "-" + parts[1] + "-" + parts[0])
  }

  /** The header text Kotlin reads: Jsoup's joined text of every
      `span.main-date`. */
  function KtHeaderText(page: Page): string {
    ElementsText(page.headers)
  }

  /** One header element whose text is already normalised is read by
      Kotlin exactly as the Node extractors read it. */
  lemma KtHeaderTextOfOne(page: Page)
    requires |page.headers| == 1 && Normalised(page.headers[0])
    ensures page.header == Some(KtHeaderText(page))
  {
    ElementTextNormalises(page.headers[0]);
  }

  /** On a page with one header element whose text is already normalised:
      where the date token has exactly three pieces, the Kotlin date is the
      Node extractors' header chain; with fewer the Node chain still yields
      a value where Kotlin throws. */
  lemma KtDateVersusNode(page: Page)
    requires |page.headers| == 1 && Normalised(page.headers[0])
    ensures var tokens := Split(KtHeaderText(page), ' ');
            |tokens| >= 2 && |Split(tokens[1], '.')| == 3 ==> KtDate(KtHeaderText(page)) == HeaderChain(page.header)
    ensures HeaderChain(page.header).Some? && KtDate(KtHeaderText(page)).None? ==>
              |Split(Split(page.header.value, ' ')[1], '.')| < 3
  {
    KtHeaderTextOfOne(page);
    var tokens := Split(KtHeaderText(page), ' ');
    if |tokens| >= 2 {
      var parts := Split(tokens[1], '.');
      if |parts| == 3 {
        var c := CenturyPrefix(parts);
        assert c == [parts[0], parts[1], "20" + parts[2]];
        assert Reverse(c) == ["20" + parts[2], parts[1], parts[0]];
        JoinThree("20" + parts[2], parts[1], parts[0], '-');
      }
    }
  }

  /** A header text "<weekday> <dd>.<mm>.<yy>" gives "20<yy>-<mm>-<dd>". */
  lemma KtDateOfDate(weekday: string, d: string, m: string, y: string)
    requires ' ' !in weekday
    requires ' ' !in d && ' ' !in m && ' ' !in y
    requires '.' !in d && '.' !in m && '.' !in y
    ensures KtDate(weekday + " " + d + "." + m + "." + y) == Some("20" + y + "-" + m + "-" + d)
  {
    var tok := d + "." + m + "." + y;
    JoinThree(d, m, y, '.');
    assert ' ' !in tok by {
      forall i | 0 <= i < |tok| ensures tok[i] != ' ' {
        if i < |d| { assert tok[i] == d[i]; }
        else if i == |d| { }
        else if i < |d| + 1 + |m| { assert tok[i] == m[i - |d| - 1]; }
        else if i == |d| + 1 + |m| { }
        else { assert tok[i] == y[i - |d| - 2 - |m|]; }
      }
    }
    JoinThree(weekday, tok, tok, ' ');
    assert weekday + " " + d + "." + m + "." + y == Join([weekday, tok], ' ');
    SplitJoin([weekday, tok], ' ');
    SplitJoin([d, m, y], '.');
  }

  /** The sample header "שבת 25.01.25" gives "2025-01-25"; a page without a
      header throws. */
  lemma KtDateExamples()
    ensures KtDate("שבת 25.01.25") == Some("2025-01-25")
    ensures KtDate(ElementsText([])) == None
  {
    KtDateOfDate("שבת", "25", "01", "25");
    assert "שבת" + " " + "25" + "." + "01" + "." + "25" == "שבת 25.01.25";
    assert "20" + "25" + "-" + "01" + "-" + "25" == "2025-01-25";
  }

  /** The sample header with a leading space: Jsoup strips it, so Kotlin
      still reads "2025-01-25", while the Node chain, splitting the raw text,
      takes the weekday for the date token. */
  lemma KtDateLeadingSpace()
    ensures KtDate(ElementsText([" שבת 25.01.25"])) == Some("2025-01-25")
    ensures HeaderChain(Some(" שבת 25.01.25")) == Some("שבת")
  {
    SampleHeaderText();
    KtDateExamples();
    NodeSampleDate();
  }

  /** The Node chain on the padded sample header. */
  lemma NodeSampleDate()
    ensures HeaderChain(Some(" שבת 25.01.25")) == Some("שבת")
  {
    SampleHeaderTokens();
    SplitNoSeparator("שבת", '.');
    assert CenturyPrefix(["שבת"]) == ["שבת"];
    assert Reverse(["שבת"]) == ["שבת"];
  }

  /** Jsoup reads the padded sample header without its leading space. */
  lemma SampleHeaderText()
    ensures ElementsText([" שבת 25.01.25"]) == "שבת 25.01.25"
  {
    var x := "שבת 25.01.25";
    assert Normalised(x);
    PaddedText(" ", x, "");
    assert " " + x + "" == " שבת 25.01.25";
    ElementsTextOfOne(" שבת 25.01.25");
  }

  /** The padded sample header splits on spaces into "", the weekday and the date. */
  lemma SampleHeaderTokens()
    ensures Split(" שבת 25.01.25", ' ') == ["", "שבת", "25.01.25"]
  {
    JoinThree("", "שבת", "25.01.25", ' ');
    assert Join(["", "שבת", "25.01.25"], ' ') == " שבת 25.01.25";
    SplitJoin(["", "שבת", "25.01.25"], ' ');
  }

  /** The Kotlin alt name: the second '|' piece of the description, cut
      before the word "שלושה" when it occurs, trimmed, absent when blank. */
  function KtAltName(description: string): (r: Option<string>)
    ensures |Split(description, '|')| < 2 ==> r.None?
    ensures r.Some? ==> r.value != "" && !IsKotlinSpace(r.value[0]) && !IsKotlinSpace(r.value[|r.value| - 1])
  {
    var parts := Split(description, '|');
    if |parts| < 2 then None
    else
      var a := KTrim(SubstringBefore(parts[1], Marker));
      if a == "" then None else Some(a)
  }

  /** The cut-off word of the Kotlin alt-name rule. */
  const Marker: string := "שלושה"

  /** The part of a string before the first occurrence of `d` contains no occurrence of `d`. */
  lemma SubstringBeforeFree(s: string, d: string)
    requires |d| > 0
    ensures forall j: nat :: !OccursAt(SubstringBefore(s, d), d, j)
  {
    var r := SubstringBefore(s, d);
    forall j: nat ensures !OccursAt(r, d, j) {
      if j + |d| <= |r| {
        assert r[j..j + |d|] == s[j..j + |d|];
        assert !OccursAt(s, d, j);
      }
    }
  }

  /** Trimming cannot create an occurrence of `d`. */
  lemma TrimFree(b: string, d: string)
    requires forall j: nat :: !OccursAt(b, d, j)
    ensures forall j: nat :: !OccursAt(KTrim(b), d, j)
  {
    var a := KTrim(b);
    var off := |b| - |TrimStart(b, IsKotlinSpace)|;
    assert a == b[off..off + |a|];
    forall j: nat ensures !OccursAt(a, d, j) {
      if j + |d| <= |a| {
        assert forall i :: j <= i < j + |d| ==> a[i] == b[off + i];
        assert a[j..j + |d|] == b[off + j..off + j + |d|];
        assert !OccursAt(b, d, off + j);
      }
    }
  }

  /** The Kotlin alt name never contains the cut-off word. */
  lemma KtAltNameFree(description: string)
    ensures var r := KtAltName(description);
            r.Some? ==> forall j: nat :: !OccursAt(r.value, Marker, j)
  {
    var parts := Split(description, '|');
    if |parts| >= 2 {
      SubstringBeforeFree(parts[1], Marker);
      TrimFree(SubstringBefore(parts[1], Marker), Marker);
    }
  }

  /** Every `h3 a` of the container's `div.title` elements, in document order. */
  function TitleLinks(titles: seq<TitleBlock>): seq<Link>
    decreases |titles|
  {
    if |titles| == 0 then [] else titles[0].h3Links + TitleLinks(titles[1..])
  }

  /** The text of every `p` of the container's `div.title` elements, in document order. */
  function TitleParagraphs(titles: seq<TitleBlock>): seq<string>
    decreases |titles|
  {
    if |titles| == 0 then [] else titles[0].paragraphs + TitleParagraphs(titles[1..])
  }

  function LinkTexts(links: seq<Link>): (r: seq<string>)
    ensures |r| == |links|
    ensures forall i :: 0 <= i < |links| ==> r[i] == links[i].text
  {
    seq(|links|, i requires 0 <= i < |links| => links[i].text)
  }

  /** The record of one `div.text-content`. Title, site URL and year read
      the `div.title` elements as one selection: the title is the joined
      text of all their `h3 a` links, the site URL the `href` of the first
      ("" when that link has none), the year the first four digits in the
      joined text of all their `p` elements. The image comes from the
      parent's image wrapper, the alt name from the normalised text of the
      first `div.paragraph p`; screenings are the normalised time texts,
      collected into a set. */
  function KtGridRecord(g: GridBox, date: string): (r: Movie)
    ensures var links := TitleLinks(g.titles);
            && r.title == KTrim(ElementsText(LinkTexts(links)))
            && (r.siteUrl.Some? <==> |links| > 0)
            && (r.siteUrl.Some? ==> r.siteUrl.value == links[0].href.GetOr(""))
    ensures var text := ElementsText(TitleParagraphs(g.titles));
            && (r.year.Some? <==> exists j: nat :: FourDigitsAt(text, j))
            && (r.year.Some? ==> r.year == YearOf(Some(text)))
    ensures r.imgUrl == g.wrapperImg
    ensures r.altName == KtAltName(ElementText(g.paragraphText.GetOr("")))
    ensures r.originalTitle.None? && r.durationMinutes.None?
    ensures NoDupKeys(r.screenings)
    ensures r.screenings == AppendNew([], ParserTs.TsShowings(ElementTexts(g.calLinkTimes), date))
  {
    var links := TitleLinks(g.titles);
    var site := if |links| > 0 then Some(links[0].href.GetOr("")) else None;
    var title := KTrim(ElementsText(LinkTexts(links)));
    var times := ParserTs.TsShowings(ElementTexts(g.calLinkTimes), date);
    ToScreeningSetIsAppendNew(times);
    Movie(title, None, KtAltName(ElementText(g.paragraphText.GetOr(""))),
          YearOf(Some(ElementsText(TitleParagraphs(g.titles)))), None,
          g.wrapperImg, site, ToScreeningSet(times))
  }

  /** `parseFromDateHtml`: one record per `div.text-content` in document
      order, or the exception when the header date is malformed. */
  function KtParseFromDateHtml(page: Page): (r: Result<seq<Movie>, string>)
    ensures r.Ok? <==> KtDate(KtHeaderText(page)).Some?
    ensures r.Ok? ==> |r.value| == |page.grids|
                      && forall i :: 0 <= i < |page.grids| ==>
                           r.value[i] == KtGridRecord(page.grids[i], KtDate(KtHeaderText(page)).value)
  {
    match KtDate(KtHeaderText(page))
    case None => Err("IndexOutOfBoundsException")
    case Some(date) =>
      Ok(seq(|page.grids|, i requires 0 <= i < |page.grids| => KtGridRecord(page.grids[i], date)))
  }

  /** The Kotlin screenings are the older Node extractor's screenings of
      the same container with its time texts normalised by Jsoup, repeated
      keys dropped. */
  lemma KtScreeningsVersusTs(g: GridBox, date: string)
    ensures var normal := g.(calLinkTimes := ElementTexts(g.calLinkTimes));
            KtGridRecord(g, date).screenings == AppendNew([], ParserTs.TsGridRecord(normal, date).screenings)
  {
    var normal := g.(calLinkTimes := ElementTexts(g.calLinkTimes));
    assert ParserTs.TsGridRecord(normal, date).screenings == ParserTs.TsShowings(normal.calLinkTimes, date);
  }

  /** A time text with white space around it: Kotlin's stamp has a single
      space after the date and none at the end, the older Node extractor's
      keeps the text as it is. */
  lemma KtTimePadded(g: GridBox, date: string)
    requires g.calLinkTimes == [" 11:30 "]
    ensures KtGridRecord(g, date).screenings == [Showing(date + " 11:30", VenueEnglish)]
    ensures ParserTs.TsGridRecord(g, date).screenings == [Showing(date + "  11:30 ", VenueEnglish)]
  {
    KtPaddedScreenings(g, date);
    TsPaddedScreenings(g, date);
  }

  /** The older Node extractor's screenings of the same container. */
  lemma TsPaddedScreenings(g: GridBox, date: string)
    requires g.calLinkTimes == [" 11:30 "]
    ensures ParserTs.TsGridRecord(g, date).screenings == [Showing(date + "  11:30 ", VenueEnglish)]
  {
    assert ParserTs.TsGridRecord(g, date).screenings == ParserTs.TsShowings([" 11:30 "], date);
    TsShowingsOfOne(" 11:30 ", date);
    assert date + " " + " 11:30 " == date + "  11:30 ";
  }

  /** Kotlin's screenings of a container whose one time text is " 11:30 ". */
  lemma KtPaddedScreenings(g: GridBox, date: string)
    requires g.calLinkTimes == [" 11:30 "]
    ensures KtGridRecord(g, date).screenings == [Showing(date + " 11:30", VenueEnglish)]
  {
    PaddedTime();
    assert ElementTexts(g.calLinkTimes) == ["11:30"];
    TsShowingsOfOne("11:30", date);
    assert date + " " + "11:30" == date + " 11:30";
    var x := Showing(date + " 11:30", VenueEnglish);
    assert AppendNew([], [x]) == [x] by {
      assert [x][1..] == [];
    }
  }

  /** One time text gives one screening stamped with the date, a space and the text. */
  lemma TsShowingsOfOne(t: string, date: string)
    ensures ParserTs.TsShowings([t], date) == [Showing(date + " " + t, VenueEnglish)]
  {
    var r := ParserTs.TsShowings([t], date);
    assert r[0].dateTime == date + " " + t;
  }

  /** Jsoup reads " 11:30 " as "11:30". */
  lemma PaddedTime()
    ensures ElementText(" 11:30 ") == "11:30"
  {
    assert Normalised("11:30");
    PaddedText(" ", "11:30", " ");
    assert " " + "11:30" + " " == " 11:30 ";
  }

  /** A container with a single `div.title` holding at most one `h3 a` and
      at most one `p`, and whose time texts are already normalised: the
      shape on which Jsoup's selections read what `querySelector` reads. */
  predicate PlainContainer(g: GridBox) {
    && |g.titles| == 1
    && |g.titles[0].h3Links| <= 1
    && |g.titles[0].paragraphs| <= 1
    && (forall i :: 0 <= i < |g.titles[0].paragraphs| ==> Normalised(g.titles[0].paragraphs[i]))
    && (forall i :: 0 <= i < |g.calLinkTimes| ==> Normalised(g.calLinkTimes[i]))
  }

  /** Normalised texts are read unchanged. */
  lemma ElementTextsNormalised(ts: seq<string>)
    requires forall i :: 0 <= i < |ts| ==> Normalised(ts[i])
    ensures ElementTexts(ts) == ts
  {
    forall i | 0 <= i < |ts| ensures ElementText(ts[i]) == ts[i] {
      ElementTextNormalises(ts[i]);
    }
  }

  /** Against the older Node extractor on a plain container and the same
      date: the same year, the same screenings once repeats are dropped, and
      the same image and site URL whenever those are non-empty. */
  lemma KtAgreesWithTs(g: GridBox, date: string)
    requires PlainContainer(g)
    ensures var k := KtGridRecord(g, date);
            var t := ParserTs.TsGridRecord(g, date);
            && k.year == t.year
            && k.screenings == AppendNew([], t.screenings)
            && (Truthy(g.wrapperImg).Some? ==> k.imgUrl == t.imgUrl)
            && (t.siteUrl.Some? ==> k.siteUrl == t.siteUrl)
  {
    var tb := g.titles[0];
    assert g.titles[1..] == [];
    assert TitleLinks(g.titles) == tb.h3Links;
    assert TitleParagraphs(g.titles) == tb.paragraphs;
    ElementTextsNormalised(g.calLinkTimes);
    ElementTextsNormalised(tb.paragraphs);
    KtScreeningsVersusTs(g, date);
    assert g.(calLinkTimes := g.calLinkTimes) == g;
    if |tb.paragraphs| == 1 {
      assert ElementsText(tb.paragraphs) == tb.paragraphs[0];
    } else {
      assert ElementsText(tb.paragraphs) == "";
    }
  }
}
