/** A schedule page as the extractors see it, after CSS selection: every
    element an extractor queries is reduced to the texts and attributes it
    reads. A selection that can match several elements is kept whole, in
    document order; the first match, which `querySelector` returns, is
    derived from it. Texts are text content as the DOM holds it, before any
    trimming or whitespace normalisation. */
module Dom {
  import opened Wrappers

  /** The first element, absent for an empty sequence. */
  function First<T>(s: seq<T>): (r: Option<T>)
    ensures r.Some? <==> |s| > 0
    ensures r.Some? ==> r.value == s[0]
  {
    if |s| > 0 then Some(s[0]) else None
  }

  /** An anchor: its text content and its `href` attribute (`None` when the
      attribute is missing). */
  datatype Link = Link(text: string, href: Option<string>)

  /** A `div.title` element as the extractors query it. */
  datatype TitleBlock = TitleBlock(
    h3Links: seq<Link>,       // every `h3 a` inside it
    links: seq<Link>,         // every `a` inside it
    paragraphs: seq<string>)  // the text of every `p` inside it
  {
    const h3Link: Option<Link> := First(h3Links)
    const firstLink: Option<Link> := First(links)
    const paragraph: Option<string> := First(paragraphs)
  }

  /** A grid container, `div.text-content`. */
  datatype GridBox = GridBox(
    titles: seq<TitleBlock>,        // every `div.title` inside it
    paragraphText: Option<string>,  // text of its first `div.paragraph p`
    descText: Option<string>,       // text of its first `div.desc`
    wrapperImg: Option<string>,     // `src` of the parent's `div.img-wraper img[src$=".jpg"]`
    ownImg: Option<string>,         // `src` of its own first `img[src$=".jpg"]`
    calLinkTimes: seq<string>,      // texts of its `a.cal_link span.time` elements
    anyTimes: seq<string>)          // texts of `a.cal_link span.time, span.time, div.time`, in document order
  {
    const title: Option<TitleBlock> := First(titles)
  }

  /** A `div.title` inside a popup wrapper, with the text of its next
      sibling element when that sibling has class `desc`. */
  datatype WrapperTitle = WrapperTitle(block: TitleBlock, desc: Option<string>)

  /** A popup wrapper, `div.outer-wrapper`: its titles and the text of its
      first `div.time`. */
  datatype Wrapper = Wrapper(titles: seq<WrapperTitle>, time: Option<string>)

  /** A `div.title` of the legacy listing page: the texts of its `h3`
      elements and, for each `div.n_block_r` inside it, the texts of that
      block's `p` elements. */
  datatype LegacyBlock = LegacyBlock(h3s: seq<string>, blockParagraphs: seq<seq<string>>)
  {
    const h3: Option<string> := First(h3s)
    /** The first `p` text of each `div.n_block_r`. */
    const blocks: seq<Option<string>> := Firsts(blockParagraphs)
  }

  /** The first element of each sequence. */
  function Firsts<T>(ss: seq<seq<T>>): (r: seq<Option<T>>)
    ensures |r| == |ss|
    ensures forall i :: 0 <= i < |ss| ==> r[i] == First(ss[i])
  {
    seq(|ss|, i requires 0 <= i < |ss| => First(ss[i]))
  }

  datatype Page = Page(
    headers: seq<string>,     // texts of every `span.main-date`
    urlDate: Option<string>,  // the `date` parameter of the page URL
    grids: seq<GridBox>,
    wrappers: seq<Wrapper>,
    legacy: seq<LegacyBlock>)
  {
    const header: Option<string> := First(headers)
  }
}
