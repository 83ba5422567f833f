/** The older Node extractor (`MovieParser.ts`), the one the TypeScript
    fetcher and controller load: one record per grid container, no title
    skip, no title or screening deduplication, no URL fallback for the date.
    Its legacy `parse` is the same as the current extractor's
    (`ParserJs.LegacyParse`). */
module ParserTs {
  import opened Wrappers
  import opened Text
  import opened Model
  import opened Dom
  import opened NodeExtract
  import ParserJs

  // ---------------------------------------------------------------------------
  // The page date
  // ---------------------------------------------------------------------------

  /** The header transform, or "" when it is absent or empty; the URL is
      never consulted. */
  function TsDateText(page: Page): (r: string)
    ensures page.header.None? ==> r == ""
  {
    HeaderChain(page.header).GetOr("")
  }

  /** The date does not depend on the URL at all. */
  lemma TsDateIgnoresUrl(p: Page, q: Page)
    requires p.header == q.header
    ensures TsDateText(p) == TsDateText(q)
  {
  }

  /** The two extractors agree on the date except where the current one
      falls back to the URL parameter; the older one then has "". */
  lemma TsDateVersusJs(page: Page)
    ensures TsDateText(page) != ParserJs.DateText(page) ==>
              TsDateText(page) == "" && ParserJs.DateText(page) == page.urlDate.GetOr("")
    ensures TsDateText(page) != "" ==> TsDateText(page) == ParserJs.DateText(page)
  {
  }

  // ---------------------------------------------------------------------------
  // One record per grid container
  // ---------------------------------------------------------------------------

  /** The screenings of a container: one per `a.cal_link span.time` text,
      untrimmed, prefixed with the date and a space even when the date is "". */
  function TsShowings(times: seq<string>, date: string): (r: seq<Screening>)
    ensures |r| == |times|
    ensures forall i :: 0 <= i < |times| ==>
              r[i].venue == VenueEnglish && r[i].language.None? && r[i].subtitles.None?
              && |r[i].dateTime| == |date| + 1 + |times[i]|
              && r[i].dateTime[..|date|] == date && r[i].dateTime[|date|] == ' '
              && r[i].dateTime[|date| + 1..] == times[i]
  {
    seq(|times|, i requires 0 <= i < |times| => Showing(date + " " + times[i], VenueEnglish))
  }

  /** The `h3 a` link of a container, if any. */
  function H3Link(g: GridBox): Option<Link> {
    match g.title
    case Some(tb) => tb.h3Link
    case None => None
  }

  /** The record of one container. Title and site URL come from `h3 a`
      only, the image from the parent's image wrapper only, the alt name
      from `div.paragraph p` only; a missing title becomes "". */
  function TsGridRecord(g: GridBox, date: string): (r: Movie)
    ensures r.title == LinkTitle(H3Link(g))
    ensures r.siteUrl.Some? <==> H3Link(g).Some? && Truthy(H3Link(g).value.href).Some?
    ensures r.imgUrl == Truthy(g.wrapperImg)
    ensures r.altName == AltName(g.paragraphText.GetOr(""))
    ensures r.originalTitle.None? && r.durationMinutes.None?
    ensures |r.screenings| == |g.calLinkTimes|
  {
    var link := H3Link(g);
    var paragraph := match g.title case Some(tb) => tb.paragraph case None => None;
    var site := match link case Some(l) => Truthy(l.href) case None => None;
    Movie(LinkTitle(link), None, AltName(g.paragraphText.GetOr("")), YearOf(paragraph), None,
          Truthy(g.wrapperImg), site, TsShowings(g.calLinkTimes, date))
  }

  /** `parseFromDateHtml`: exactly one record per grid container, in
      document order; popup wrappers are not read. */
  function TsParseFromDateHtml(page: Page): (r: seq<Movie>)
    ensures |r| == |page.grids|
    ensures forall i :: 0 <= i < |r| ==> r[i] == TsGridRecord(page.grids[i], TsDateText(page))
  {
    var date := TsDateText(page);
    seq(|page.grids|, i requires 0 <= i < |page.grids| => TsGridRecord(page.grids[i], date))
  }

  /** The output ignores the popup wrappers entirely. */
  lemma TsIgnoresWrappers(p: Page, q: Page)
    requires p.header == q.header && p.grids == q.grids
    ensures TsParseFromDateHtml(p) == TsParseFromDateHtml(q)
  {
  }

  /** Neither titles nor screenings are deduplicated: two containers with the
      same title give two records, and a container listing the same time
      twice gives two equal screenings. */
  lemma TsKeepsDuplicates(page: Page, i: nat, j: nat, k: nat, l: nat)
    requires i < j < |page.grids|
    requires LinkTitle(H3Link(page.grids[i])) == LinkTitle(H3Link(page.grids[j]))
    requires k < l < |page.grids[i].calLinkTimes|
    requires page.grids[i].calLinkTimes[k] == page.grids[i].calLinkTimes[l]
    ensures var r := TsParseFromDateHtml(page);
            && r[i].title == r[j].title
            && r[i].screenings[k] == r[i].screenings[l]
            && !NoDupKeys(r[i].screenings)
  {
    var r := TsParseFromDateHtml(page);
    var date := TsDateText(page);
    var times := page.grids[i].calLinkTimes;
    assert r[i].screenings == TsShowings(times, date);
    assert r[i].screenings[k] == Showing(date + " " + times[k], VenueEnglish);
    assert r[i].screenings[l] == Showing(date + " " + times[l], VenueEnglish);
  }

  /** Without a date, every screening's date-time starts with a space. */
  lemma TsLeadingSpace(g: GridBox, k: nat)
    requires k < |g.calLinkTimes|
    ensures TsGridRecord(g, "").screenings[k].dateTime == " " + g.calLinkTimes[k]
  {
    var r := TsGridRecord(g, "");
    assert r.screenings[k].dateTime[1..] == g.calLinkTimes[k];
  }

  /** Where the container has a non-blank `h3 a` title and a non-empty
      `div.paragraph p`, the older extractor reads the same title, alt name,
      year and site URL as the current one, and the same image whenever the
      parent's image wrapper has one. */
  lemma TsAgreesWithJs(g: GridBox, date: string)
    requires H3Link(g).Some? && LinkTitle(H3Link(g)) != ""
    requires g.paragraphText.Some? && g.paragraphText.value != ""
    ensures var t := TsGridRecord(g, date);
            var j := ParserJs.GridRecord(g, date);
            && j.Some?
            && t.title == j.value.title
            && t.altName == j.value.altName
            && t.year == j.value.year
            && t.siteUrl == j.value.siteUrl
            && (Truthy(g.wrapperImg).Some? ==> t.imgUrl == j.value.imgUrl)
  {
    assert ParserJs.GridLink(g) == H3Link(g);
  }
}
