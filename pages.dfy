/** What the miner reads out of fetched pages. HTML scraping, XML decoding,
    transliteration and URL quoting are outside the model: their results
    arrive through the function fields of `Env`. */
module Pages {
  import opened Wrappers

  /** The network: the body served at a URL, or `None` when the request
      raises. */
  type Network = string -> Option<string>

  /** One `<div class="head">` of a venue index page: the `src` of every
      `<img>` inside it, and the `href` of its first `<a>` (`None` when it
      has no anchor or the anchor has no `href`). */
  datatype Block = Block(imageSources: seq<string>, firstHref: Option<string>)

  /** One `<a>` element: its visible text and its `href`, if any. */
  datatype Link = Link(text: string, href: Option<string>)

  /** The title link inside the first search result of the citation index:
      its first child's text and its `href`, if any. */
  datatype SearchHit = SearchHit(text: string, href: Option<string>)

  /** A document as decoded by xmltodict: text, an ordered dictionary of
      fields, a list of repeated elements, or nothing (an empty element). */
  datatype Value =
    | Text(s: string)
    | Dict(entries: seq<Field>)
    | List(items: seq<Value>)
    | Null

  datatype Field = Field(key: string, val: Value)

  /** The collaborators of a mining run. */
  datatype Env = Env(
    net: Network,
    // every <div class="head"> of a venue index page
    heads: string -> seq<Block>,
    // every <a> of a venue-year page
    anchors: string -> seq<Link>,
    // xmltodict.parse; None when the text does not decode
    xml: string -> Option<Value>,
    // the first result's title link on a search page; None when the result
    // block, its <h3>, its <a> or the link's first child is missing
    firstResult: string -> Option<SearchHit>,
    // the hrefs of the <a> elements inside <div id="citations">; None when
    // that block is missing
    citationAnchors: string -> Option<seq<Option<string>>>,
    // the first child of <div id="docAuthors"> as text; None when the block
    // is missing or its first child is not text
    docAuthors: string -> Option<string>,
    // unidecode
    translit: string -> string,
    // urllib.quote_plus
    quote: string -> string)
}
