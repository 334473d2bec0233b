/**
 * The script's main loop: for every filer id of the feed, resolve its S-1
 * filings, fetch and classify each filing document, merge what the
 * blank-check documents say into one record per filer (the first
 * non-empty value of each field wins), and keep the records that have
 * both a name and a ticker.
 *
 * The network and the parsers are parameters: `history` gives the decoded
 * filing history served at a submissions address, `fetch` the body served
 * at a document link, and `parse` the paragraphs of a document.
 */
module Aggregator {
  import opened Wrappers
  import opened Records
  import Discovery
  import Resolver
  import Classifier
  import Extractor

  /** The four fields the merge fills in. */
  datatype Fields = Fields(name: string, ticker: string, date: string, link: string)

  /** The accumulator `SPAC(name='', ticker='', date='', link='', ...)`. */
  const Unset := Fields("", "", "", "")

  /** One `if value and not final_spac.field: final_spac.field = value` test. */
  function Keep(current: string, offered: string): string
  {
    if offered != "" && current == "" then offered else current
  }

  /** One classified filing's turn in the merge: each field still empty takes the filing's value. */
  function Fill(acc: Fields, f: Fields): Fields
  {
    Fields(Keep(acc.name, f.name), Keep(acc.ticker, f.ticker), Keep(acc.date, f.date), Keep(acc.link, f.link))
  }

  /** The accumulator after the classified filings `fs`, in order. */
  function MergeAll(fs: seq<Fields>): Fields
  {
    if fs == [] then Unset else Fill(MergeAll(fs[..|fs| - 1]), fs[|fs| - 1])
  }

  /** The first non-empty string of `xs`, `""` when all are empty. */
  function FirstNonEmpty(xs: seq<string>): (r: string)
    ensures r == "" <==> forall k :: 0 <= k < |xs| ==> xs[k] == ""
    ensures r != "" ==> exists k :: 0 <= k < |xs| && xs[k] == r && forall j :: 0 <= j < k ==> xs[j] == ""
  {
    if xs == [] then ""
    else if xs[0] != "" then xs[0]
    else
      var r := FirstNonEmpty(xs[1..]);
      assert r != "" ==> exists k :: 1 <= k < |xs| && xs[k] == r && forall j :: 0 <= j < k ==> xs[j] == "" by {
        if r != "" {
          var k :| 0 <= k < |xs[1..]| && xs[1..][k] == r && forall j :: 0 <= j < k ==> xs[1..][j] == "";
          assert xs[k + 1] == r;
          forall j | 0 <= j < k + 1 ensures xs[j] == "" {
            if j > 0 {
              assert xs[j] == xs[1..][j - 1];
            }
          }
        }
      }
      r
  }

  lemma {:induction false} FirstNonEmptySnoc(xs: seq<string>, x: string)
    ensures FirstNonEmpty(xs + [x]) == Keep(FirstNonEmpty(xs), x)
  {
    if xs != [] {
      assert (xs + [x])[1..] == xs[1..] + [x];
      FirstNonEmptySnoc(xs[1..], x);
    }
  }

  function NameField(f: Fields): string { f.name }
  function TickerField(f: Fields): string { f.ticker }
  function DateField(f: Fields): string { f.date }
  function LinkField(f: Fields): string { f.link }

  /** One field of each of `fs`, in order. */
  function Column(fs: seq<Fields>, field: Fields -> string): (col: seq<string>)
    ensures |col| == |fs|
    ensures forall k :: 0 <= k < |fs| ==> col[k] == field(fs[k])
  {
    if fs == [] then [] else Column(fs[..|fs| - 1], field) + [field(fs[|fs| - 1])]
  }

  /**
   * Merging is first-non-empty-wins, field by field: each field of the
   * accumulator is the first non-empty value of that field among the
   * classified filings, in filing order.
   */
  lemma {:induction false} MergeIsFirstNonEmpty(fs: seq<Fields>)
    ensures MergeAll(fs) == Fields(
      FirstNonEmpty(Column(fs, NameField)), FirstNonEmpty(Column(fs, TickerField)),
      FirstNonEmpty(Column(fs, DateField)), FirstNonEmpty(Column(fs, LinkField)))
  {
    if fs != [] {
      var init := fs[..|fs| - 1];
      var last := fs[|fs| - 1];
      MergeIsFirstNonEmpty(init);
      FirstNonEmptySnoc(Column(init, NameField), last.name);
      FirstNonEmptySnoc(Column(init, TickerField), last.ticker);
      FirstNonEmptySnoc(Column(init, DateField), last.date);
      FirstNonEmptySnoc(Column(init, LinkField), last.link);
    }
  }

  /** A field the merge has set is never overwritten by later filings. */
  lemma {:induction false} SetFieldsStay(fs: seq<Fields>, gs: seq<Fields>)
    ensures MergeAll(fs).name != "" ==> MergeAll(fs + gs).name == MergeAll(fs).name
    ensures MergeAll(fs).ticker != "" ==> MergeAll(fs + gs).ticker == MergeAll(fs).ticker
    ensures MergeAll(fs).date != "" ==> MergeAll(fs + gs).date == MergeAll(fs).date
    ensures MergeAll(fs).link != "" ==> MergeAll(fs + gs).link == MergeAll(fs).link
  {
    if gs == [] {
      assert fs + gs == fs;
    } else {
      var init := gs[..|gs| - 1];
      SetFieldsStay(fs, init);
      assert (fs + gs)[..|fs + gs| - 1] == fs + init;
    }
  }

  /** The filer's record is published when both name and ticker ended up non-empty. */
  predicate Publishable(f: Fields)
  {
    f.name != "" && f.ticker != ""
  }

  /**
   * What a filing offers the merge: `None` when its document lacks the
   * blank-check marker (the `continue`), otherwise the name and ticker read
   * from the document, its date and its link.
   */
  function Offer(v: SpacValue, fetch: string -> seq<byte>, parse: seq<byte> -> seq<Paragraph>): Option<Fields>
  {
    if Classifier.IsSpac(fetch(v.link)) then
      var ps := parse(fetch(v.link));
      Some(Fields(Extractor.NameOf(ps), Extractor.TickerSpec(ps), v.date, v.link))
    else None
  }

  function Offers(fetch: string -> seq<byte>, parse: seq<byte> -> seq<Paragraph>): SpacValue -> Option<Fields>
  {
    v => Offer(v, fetch, parse)
  }

  /** The values offered by the filings `vs`, in filing order. */
  function Offered(vs: seq<SpacValue>, offer: SpacValue -> Option<Fields>): seq<Fields>
  {
    if vs == [] then []
    else
      Offered(vs[..|vs| - 1], offer) +
      match offer(vs[|vs| - 1]) case None => [] case Some(f) => [f]
  }

  /** The merged record of one filer's resolved filings. */
  function FilerRecord(vs: seq<SpacValue>, fetch: string -> seq<byte>, parse: seq<byte> -> seq<Paragraph>): Fields
  {
    MergeAll(Offered(vs, Offers(fetch, parse)))
  }

  /** Each offered value comes from a filing that offers it, and every offer is taken. */
  lemma {:induction false} OfferedSpec(vs: seq<SpacValue>, offer: SpacValue -> Option<Fields>)
    ensures forall f :: f in Offered(vs, offer) <==> exists j :: 0 <= j < |vs| && offer(vs[j]) == Some(f)
  {
    if vs != [] {
      var init := vs[..|vs| - 1];
      OfferedSpec(init, offer);
      assert forall j :: 0 <= j < |init| ==> init[j] == vs[j];
    }
  }

  /** One more filing extends the merge by its offer, if it makes one. */
  lemma OfferedSnoc(vs: seq<SpacValue>, v: SpacValue, offer: SpacValue -> Option<Fields>)
    ensures MergeAll(Offered(vs + [v], offer)) ==
      match offer(v) case None => MergeAll(Offered(vs, offer)) case Some(f) => Fill(MergeAll(Offered(vs, offer)), f)
  {
    var cs := Offered(vs, offer);
    assert (vs + [v])[..|vs|] == vs;
    match offer(v)
    case None =>
      assert cs + [] == cs;
    case Some(f) =>
      assert (cs + [f])[..|cs|] == cs;
  }

  /**
   * Only classified filings contribute: a filing whose document lacks the
   * blank-check marker changes nothing in the filer's record.
   */
  lemma UnclassifiedIgnored(vs: seq<SpacValue>, v: SpacValue, fetch: string -> seq<byte>, parse: seq<byte> -> seq<Paragraph>)
    requires !Classifier.IsSpac(fetch(v.link))
    ensures FilerRecord(vs + [v], fetch, parse) == FilerRecord(vs, fetch, parse)
  {
    OfferedSnoc(vs, v, Offers(fetch, parse));
  }

  /** Filing `j` is the first of `vs` that `offer` accepts. */
  predicate FirstOfferAt(vs: seq<SpacValue>, offer: SpacValue -> Option<Fields>, j: int)
  {
    0 <= j < |vs| && offer(vs[j]).Some? && forall i :: 0 <= i < j ==> offer(vs[i]).None?
  }

  /**
   * Generic form of the date property: when every filing has a date and
   * every offer carries its filing's date, the merged date is empty
   * exactly when nothing is offered, and otherwise it is the date of the
   * first filing that offers.
   */
  lemma {:induction false} OfferedDate(vs: seq<SpacValue>, offer: SpacValue -> Option<Fields>)
    requires forall j :: 0 <= j < |vs| ==> vs[j].date != ""
    requires forall j :: 0 <= j < |vs| && offer(vs[j]).Some? ==> offer(vs[j]).value.date == vs[j].date
    ensures MergeAll(Offered(vs, offer)).date == "" <==> forall j :: 0 <= j < |vs| ==> offer(vs[j]).None?
    ensures forall j :: FirstOfferAt(vs, offer, j) ==> MergeAll(Offered(vs, offer)).date == vs[j].date
  {
    if vs != [] {
      var init := vs[..|vs| - 1];
      var last := vs[|vs| - 1];
      assert forall j :: 0 <= j < |init| ==> init[j] == vs[j];
      assert init + [last] == vs;
      OfferedDate(init, offer);
      OfferedSnoc(init, last, offer);
      var m := MergeAll(Offered(init, offer));
      forall j | FirstOfferAt(vs, offer, j) ensures MergeAll(Offered(vs, offer)).date == vs[j].date {
        if j < |init| {
          assert FirstOfferAt(init, offer, j);
        } else {
          assert forall i :: 0 <= i < |init| ==> offer(init[i]).None?;
        }
      }
    }
  }

  /** Filing `j` is the first of `vs` whose document is classified as a blank-check prospectus. */
  predicate FirstClassifiedAt(vs: seq<SpacValue>, fetch: string -> seq<byte>, j: int)
  {
    0 <= j < |vs| && Classifier.IsSpac(fetch(vs[j].link)) &&
    forall i :: 0 <= i < j ==> !Classifier.IsSpac(fetch(vs[i].link))
  }

  /**
   * Every filing the resolver builds has a date, so the filer's date stays
   * empty only when no filing is classified, and otherwise it is the date
   * of the first classified filing.
   */
  lemma DateFromFirstClassified(vs: seq<SpacValue>, fetch: string -> seq<byte>, parse: seq<byte> -> seq<Paragraph>)
    requires forall j :: 0 <= j < |vs| ==> vs[j].date != ""
    ensures FilerRecord(vs, fetch, parse).date == "" <==>
      forall j :: 0 <= j < |vs| ==> !Classifier.IsSpac(fetch(vs[j].link))
    ensures forall j :: FirstClassifiedAt(vs, fetch, j) ==> FilerRecord(vs, fetch, parse).date == vs[j].date
  {
    var offer := Offers(fetch, parse);
    assert forall j :: 0 <= j < |vs| ==> (offer(vs[j]).Some? <==> Classifier.IsSpac(fetch(vs[j].link)));
    OfferedDate(vs, offer);
    assert forall j :: FirstClassifiedAt(vs, fetch, j) ==> FirstOfferAt(vs, offer, j);
  }

  // ------------------------------------------------------------ objects

  function FieldsOf(s: Spac): Fields
    reads s
  {
    Fields(s.name, s.ticker, s.date, s.link)
  }

  /** The values of `ss`, in order. */
  function Values(ss: seq<Spac>): (vs: seq<SpacValue>)
    reads ss
    ensures |vs| == |ss|
    ensures forall j :: 0 <= j < |ss| ==> vs[j] == ss[j].Value()
  {
    if ss == [] then [] else Values(ss[..|ss| - 1]) + [ss[|ss| - 1].Value()]
  }

  /** The merge fields of `ss`, in order. */
  function Snapshot(ss: seq<Spac>): (fs: seq<Fields>)
    reads ss
    ensures |fs| == |ss|
    ensures forall j :: 0 <= j < |ss| ==> fs[j] == FieldsOf(ss[j])
  {
    if ss == [] then [] else Snapshot(ss[..|ss| - 1]) + [FieldsOf(ss[|ss| - 1])]
  }

  lemma PrefixStep<T>(s: seq<T>, k: nat)
    requires k < |s|
    ensures s[..k] + [s[k]] == s[..k + 1]
  {
  }

  /**
   * The four `if value and not final_spac.field` tests for one classified
   * filing: each field of `final` still empty takes the offered value.
   */
  method Absorb(final: Spac, name: string, ticker: string, date: string, link: string)
    modifies final
    ensures FieldsOf(final) == Fill(old(FieldsOf(final)), Fields(name, ticker, date, link))
    ensures final.linkContent == old(final.linkContent)
  {
    if name != "" && final.name == "" {
      final.name := name;
    }
    if ticker != "" && final.ticker == "" {
      final.ticker := ticker;
    }
    if date != "" && final.date == "" {
      final.date := date;
    }
    if link != "" && final.link == "" {
      final.link := link;
    }
  }

  /**
   * `offer` is the merge's reading of the filings under `fetch` and
   * `parse`: it agrees with `Offer` everywhere.
   */
  ghost predicate Reads(offer: SpacValue -> Option<Fields>, fetch: string -> seq<byte>, parse: seq<byte> -> seq<Paragraph>)
  {
    forall v {:trigger Offer(v, fetch, parse)} :: offer(v) == Offer(v, fetch, parse)
  }

  lemma OffersRead(fetch: string -> seq<byte>, parse: seq<byte> -> seq<Paragraph>)
    ensures Reads(Offers(fetch, parse), fetch, parse)
  {
  }

  /**
   * One filing's turn in the `for spac in spacs` loop: fetch its document,
   * skip it unless it is a blank-check prospectus, otherwise offer its name,
   * ticker, date and link to the accumulator.
   */
  method MergeOne(final: Spac, spac: Spac, fetch: string -> seq<byte>, parse: seq<byte> -> seq<Paragraph>,
                  ghost offer: SpacValue -> Option<Fields>)
    requires final != spac
    requires Reads(offer, fetch, parse)
    modifies final, spac
    ensures spac.Value() == old(spac.Value()).(linkContent := fetch(old(spac.link)))
    ensures FieldsOf(final) ==
      match offer(old(spac.Value()))
      case None => old(FieldsOf(final))
      case Some(f) => Fill(old(FieldsOf(final)), f)
    ensures final.linkContent == old(final.linkContent)
  {
    assert offer(spac.Value()) == Offer(spac.Value(), fetch, parse);
    spac.FetchDocument(fetch);
    if Classifier.IsSpac(spac.linkContent) {
      var ps := parse(spac.linkContent);
      var name := Extractor.NameOf(ps);
      var ticker := Extractor.TickerOf(ps);
      Absorb(final, name, ticker, spac.date, spac.link);
    }
  }

  /**
   * The body of the `for cik in ciks` loop after resolution: fetches every
   * filing's document and fills a fresh accumulator from the classified
   * ones, in filing order.
   */
  method MergeFiler(spacs: seq<Spac>, fetch: string -> seq<byte>, parse: seq<byte> -> seq<Paragraph>,
                    ghost offer: SpacValue -> Option<Fields>)
    returns (final: Spac)
    requires forall i, j :: 0 <= i < j < |spacs| ==> spacs[i] != spacs[j]
    requires Reads(offer, fetch, parse)
    modifies spacs
    ensures fresh(final)
    ensures FieldsOf(final) == MergeAll(Offered(old(Values(spacs)), offer))
    ensures final.linkContent == []
  {
    ghost var before := Values(spacs);
    final := new Spac("", "", "", "", []);
    var k := 0;
    while k < |spacs|
      invariant 0 <= k <= |spacs|
      invariant fresh(final) && final.linkContent == []
      invariant final !in spacs
      invariant FieldsOf(final) == MergeAll(Offered(before[..k], offer))
      invariant forall j :: k <= j < |spacs| ==> spacs[j].Value() == before[j]
    {
      OfferedSnoc(before[..k], before[k], offer);
      PrefixStep(before, k);
      MergeOne(final, spacs[k], fetch, parse, offer);
      k := k + 1;
    }
    assert before[..k] == before;
  }

  // ---------------------------------------------------------------- run

  /** A filer's merged record, `None` where resolving its filings raises. */
  function FilerOutcome(cik: string, history: string -> Resolver.FilingHistory,
                        fetch: string -> seq<byte>, parse: seq<byte> -> seq<Paragraph>): Option<Fields>
  {
    match Resolver.Potential(cik, history(Resolver.SubmissionsUrl(cik)))
    case None => None
    case Some(vs) => Some(FilerRecord(vs, fetch, parse))
  }

  function Outcomes(history: string -> Resolver.FilingHistory,
                    fetch: string -> seq<byte>, parse: seq<byte> -> seq<Paragraph>): string -> Option<Fields>
  {
    cik => FilerOutcome(cik, history, fetch, parse)
  }

  /** `outcome` agrees with `FilerOutcome` on every filer id. */
  ghost predicate Decides(outcome: string -> Option<Fields>, history: string -> Resolver.FilingHistory,
                          fetch: string -> seq<byte>, parse: seq<byte> -> seq<Paragraph>)
  {
    forall c {:trigger FilerOutcome(c, history, fetch, parse)} :: outcome(c) == FilerOutcome(c, history, fetch, parse)
  }

  lemma OutcomesDecide(history: string -> Resolver.FilingHistory,
                       fetch: string -> seq<byte>, parse: seq<byte> -> seq<Paragraph>)
    ensures Decides(Outcomes(history, fetch, parse), history, fetch, parse)
  {
  }

  /** The records published after visiting the filers `order`; `None` once a filer's resolution has raised. */
  function Published(order: seq<string>, outcome: string -> Option<Fields>): Option<seq<Fields>>
  {
    if order == [] then Some([])
    else
      match Published(order[..|order| - 1], outcome)
      case None => None
      case Some(acc) =>
        match outcome(order[|order| - 1])
        case None => None
        case Some(f) => Some(if Publishable(f) then acc + [f] else acc)
  }

  /**
   * A run that completes publishes exactly the publishable records of the
   * filers it visits: every published record is publishable and is some
   * visited filer's record, and every visited filer with a publishable
   * record is published. The run fails exactly when some visited filer's
   * resolution fails.
   */
  lemma {:induction false} PublishedSpec(order: seq<string>, outcome: string -> Option<Fields>)
    ensures Published(order, outcome).None? <==> exists k :: 0 <= k < |order| && outcome(order[k]).None?
    ensures Published(order, outcome).Some? ==>
      forall f :: f in Published(order, outcome).value <==>
        Publishable(f) && exists k :: 0 <= k < |order| && outcome(order[k]) == Some(f)
  {
    if order != [] {
      var init := order[..|order| - 1];
      var last := order[|order| - 1];
      PublishedSpec(init, outcome);
      assert forall k :: 0 <= k < |init| ==> init[k] == order[k];
      if Published(order, outcome).None? {
        if Published(init, outcome).None? {
          var k :| 0 <= k < |init| && outcome(init[k]).None?;
          assert outcome(order[k]).None?;
        } else {
          assert outcome(order[|order| - 1]).None?;
        }
      } else {
        var acc := Published(init, outcome).value;
        forall g | g in Published(order, outcome).value
          ensures Publishable(g) && exists k :: 0 <= k < |order| && outcome(order[k]) == Some(g)
        {
          if g in acc {
            var k :| 0 <= k < |init| && outcome(init[k]) == Some(g);
            assert order[k] == init[k];
          } else {
            assert outcome(order[|order| - 1]) == Some(g);
          }
        }
        forall g | Publishable(g) && exists k :: 0 <= k < |order| && outcome(order[k]) == Some(g)
          ensures g in Published(order, outcome).value
        {
          var k :| 0 <= k < |order| && outcome(order[k]) == Some(g);
          if k < |init| {
            assert outcome(init[k]) == Some(g);
          }
        }
      }
    }
  }

  /** Visiting one more filer extends the published list by its record, if publishable. */
  lemma PublishedSnoc(order: seq<string>, c: string, outcome: string -> Option<Fields>)
    ensures Published(order + [c], outcome) ==
      match Published(order, outcome)
      case None => None
      case Some(acc) =>
        match outcome(c)
        case None => None
        case Some(f) => Some(if Publishable(f) then acc + [f] else acc)
  {
    assert (order + [c])[..|order|] == order;
  }

  lemma SnapshotSnoc(ss: seq<Spac>, s: Spac)
    ensures Snapshot(ss + [s]) == Snapshot(ss) + [FieldsOf(s)]
  {
    assert (ss + [s])[..|ss|] == ss;
  }

  /**
   * One turn of the `for cik in ciks` loop up to the emptiness test:
   * resolve the filer's S-1 filings and merge them into a fresh record;
   * `None` where the resolution raises.
   */
  method VisitFiler(cik: string, history: string -> Resolver.FilingHistory,
                    fetch: string -> seq<byte>, parse: seq<byte> -> seq<Paragraph>,
                    ghost outcome: string -> Option<Fields>)
    returns (r: Option<Spac>)
    requires Decides(outcome, history, fetch, parse)
    ensures r.None? <==> outcome(cik).None?
    ensures r.Some? ==> fresh(r.value) && r.value.linkContent == [] && outcome(cik) == Some(FieldsOf(r.value))
  {
    assert outcome(cik) == FilerOutcome(cik, history, fetch, parse);
    var h := history(Resolver.SubmissionsUrl(cik));
    var spacs := Resolver.PotentialSpacs(cik, h);
    if spacs.None? {
      return None;
    }
    assert Values(spacs.value) == Resolver.Potential(cik, h).value;
    OffersRead(fetch, parse);
    var final := MergeFiler(spacs.value, fetch, parse, Offers(fetch, parse));
    r := Some(final);
  }

  /**
   * One turn of the `for cik in ciks` loop: the filer's record joins the
   * published list `finals` when it has both a name and a ticker; `None`
   * where the filer's resolution raises.
   */
  method Visit(cik: string, history: string -> Resolver.FilingHistory,
               fetch: string -> seq<byte>, parse: seq<byte> -> seq<Paragraph>,
               ghost outcome: string -> Option<Fields>, finals: seq<Spac>, ghost order: seq<string>)
    returns (next: Option<seq<Spac>>)
    requires Decides(outcome, history, fetch, parse)
    requires Published(order, outcome) == Some(Snapshot(finals))
    ensures next.None? <==> Published(order + [cik], outcome).None?
    ensures next.Some? ==> Published(order + [cik], outcome) == Some(Snapshot(next.value))
    ensures next.Some? ==> forall s :: s in next.value ==> s in finals || (fresh(s) && s.linkContent == [])
  {
    PublishedSnoc(order, cik, outcome);
    var final := VisitFiler(cik, history, fetch, parse, outcome);
    if final.None? {
      return None;
    }
    if final.value.name != "" && final.value.ticker != "" {
      SnapshotSnoc(finals, final.value);
      next := Some(finals + [final.value]);
    } else {
      next := Some(finals);
    }
  }

  /**
   * The `for cik in ciks` loop: visits every filer id once, in an
   * unspecified order returned as `order`, and keeps the records that
   * have both a name and a ticker; `None` as soon as a filer's resolution
   * raises.
   */
  method VisitAll(ciks: set<string>, history: string -> Resolver.FilingHistory,
                  fetch: string -> seq<byte>, parse: seq<byte> -> seq<Paragraph>)
    returns (published: Option<seq<Spac>>, ghost order: seq<string>)
    ensures forall i, j :: 0 <= i < j < |order| ==> order[i] != order[j]
    ensures forall c :: c in order ==> c in ciks
    ensures published.Some? ==> forall c :: c in ciks ==> c in order
    ensures published.Some? ==> Published(order, Outcomes(history, fetch, parse)) == Some(Snapshot(published.value))
    ensures published.None? ==> Published(order, Outcomes(history, fetch, parse)).None?
    ensures published.Some? ==> forall s :: s in published.value ==> fresh(s) && s.linkContent == []
  {
    order := [];
    ghost var outcome := Outcomes(history, fetch, parse);
    OutcomesDecide(history, fetch, parse);
    var remaining := ciks;
    var finals: seq<Spac> := [];
    while remaining != {}
      invariant remaining <= ciks
      invariant forall c :: c in ciks ==> (c in order <==> c !in remaining)
      invariant forall c :: c in order ==> c in ciks
      invariant forall i, j :: 0 <= i < j < |order| ==> order[i] != order[j]
      invariant forall s :: s in finals ==> fresh(s) && s.linkContent == []
      invariant Published(order, outcome) == Some(Snapshot(finals))
      decreases remaining
    {
      var cik :| cik in remaining;
      remaining := remaining - {cik};
      assert cik !in order;
      var next := Visit(cik, history, fetch, parse, outcome, finals, order);
      order := order + [cik];
      if next.None? {
        return None, order;
      }
      finals := next.value;
    }
    published := Some(finals);
  }

  /**
   * The `__main__` block from the feed's link hrefs to the list handed to
   * the POST: `None` where the script raises (a link without a filer
   * segment, a filing date `strptime` rejects). Filers are visited in an
   * unspecified order, returned as `order`: every filer id exactly once.
   */
  method Run(hrefs: seq<string>, history: string -> Resolver.FilingHistory,
             fetch: string -> seq<byte>, parse: seq<byte> -> seq<Paragraph>)
    returns (published: Option<seq<Spac>>, ghost order: seq<string>)
    ensures Discovery.CiksFromHrefs(hrefs).None? ==> published.None? && order == []
    ensures Discovery.CiksFromHrefs(hrefs).Some? ==>
      (forall i, j :: 0 <= i < j < |order| ==> order[i] != order[j]) &&
      (forall c :: c in order ==> c in Discovery.CiksFromHrefs(hrefs).value)
    ensures published.Some? ==>
      Discovery.CiksFromHrefs(hrefs).Some? &&
      (forall c :: c in Discovery.CiksFromHrefs(hrefs).value ==> c in order) &&
      Published(order, Outcomes(history, fetch, parse)) == Some(Snapshot(published.value))
    ensures published.None? && Discovery.CiksFromHrefs(hrefs).Some? ==>
      Published(order, Outcomes(history, fetch, parse)).None?
    ensures published.Some? ==> forall s :: s in published.value ==> fresh(s) && s.linkContent == []
  {
    var ciks := Discovery.CiksFromHrefs(hrefs);
    if ciks.None? {
      return None, [];
    }
    published, order := VisitAll(ciks.value, history, fetch, parse);
  }
}
