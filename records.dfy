/**
 * The scraper's record type (the `SPAC` dataclass) and the shapes of the
 * inputs its external collaborators hand over.
 */
module Records {
  import opened Wrappers

  newtype byte = x: int | 0 <= x < 256

  /** The five fields of a `SPAC` record, as a value. */
  datatype SpacValue = SpacValue(name: string, ticker: string, date: string, link: string, linkContent: seq<byte>)

  /**
   * The mutable `SPAC` dataclass. Filing resolution creates one per
   * selected filing with empty name, ticker and content; the fetch step
   * fills `linkContent`; the per-filer merge fills a fresh one field by
   * field.
   */
  class Spac {
    var name: string
    var ticker: string
    var date: string
    var link: string
    var linkContent: seq<byte>

    constructor (name: string, ticker: string, date: string, link: string, linkContent: seq<byte>)
      ensures Value() == SpacValue(name, ticker, date, link, linkContent)
    {
      this.name := name;
      this.ticker := ticker;
      this.date := date;
      this.link := link;
      this.linkContent := linkContent;
    }

    function Value(): SpacValue
      reads this
    {
      SpacValue(name, ticker, date, link, linkContent)
    }

    /**
     * `fetch_filing_document`: the body of a GET of `link` (supplied as
     * `get`) becomes `linkContent`; no other field changes.
     */
    method FetchDocument(get: string -> seq<byte>)
      modifies this
      ensures Value() == old(Value()).(linkContent := get(old(link)))
    {
      linkContent := get(link);
    }
  }

  /**
   * One `<p>` element as the HTML parser sees it: its `style` attribute,
   * its `.text` and its `.string` (`None` unless the element holds a single
   * string).
   */
  datatype Paragraph = Paragraph(style: Option<string>, text: string, str: Option<string>)
}
