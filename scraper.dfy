/**
 * The crawl loop of src/scraper.js: the search-result page URLs, the
 * pagination counters with their caps and stop rules, the record built
 * from one detail page (feature labels and their precedence over the
 * positional fields), and the run as a whole. The browser is replaced by
 * its answers: what each search page lists and what each detail page
 * holds are inputs.
 */
module Scraper {
  import opened Text
  import opened Values
  import opened Calendar
  import opened Utils
  import opened SubitoDate

  // ---------------------------------------------------------------------
  // Page URLs
  // ---------------------------------------------------------------------

  /** The URL of search-result page `n`: the base URL for page 1, `?o=n` appended after it. */
  function PageUrl(baseUrl: string, n: nat): (url: string)
    ensures n == 1 ==> url == baseUrl
    ensures n != 1 ==> url == baseUrl + "?o=" + NatToString(n)
  {
    if n == 1 then baseUrl else baseUrl + "?o=" + IntToString(n)
  }

  /** Different pages have different URLs, so no page is loaded twice. */
  lemma PageUrlInjective(baseUrl: string, m: nat, n: nat)
    requires m >= 1 && n >= 1 && PageUrl(baseUrl, m) == PageUrl(baseUrl, n)
    ensures m == n
  {
    if m != 1 && n != 1 {
      var prefix := baseUrl + "?o=";
      assert PageUrl(baseUrl, m)[|prefix|..] == NatToString(m);
      assert PageUrl(baseUrl, n)[|prefix|..] == NatToString(n);
      NatToStringInjective(m, n);
    }
  }

  // ---------------------------------------------------------------------
  // Detail-page text and the feature table
  // ---------------------------------------------------------------------

  /** `getText`: the text content of an element, trimmed, or undefined when the element is absent. */
  function GetText(content: Option<string>): (r: Option<string>)
    ensures r.Some? <==> content.Some?
    ensures r.Some? ==> TrimmedFrom(content.value, r.value)
  {
    if content.Some? then TrimInfix(content.value); Some(Trim(content.value)) else None
  }

  /** `label.toLowerCase().replace(/\s/g, '')`. */
  function NormaliseLabel(labelText: string): (key: string)
    ensures forall i :: 0 <= i < |key| ==> !IsSpace(key[i]) && !IsUpper(key[i])
  {
    var lower := ToLower(labelText);
    var key := Without(lower, IsSpace);
    forall i | 0 <= i < |key| ensures !IsUpper(key[i]) {
      assert key[i] in lower;
    }
    key
  }

  /** A normalised label normalises to itself. */
  lemma NormaliseLabelIdempotent(labelText: string)
    ensures NormaliseLabel(NormaliseLabel(labelText)) == NormaliseLabel(labelText)
  {
    var key := NormaliseLabel(labelText);
    assert ToLower(key) == key;
    WithoutNothing(key, IsSpace);
  }

  /** Normalising works character by character: it distributes over concatenation. */
  lemma NormaliseLabelAppend(a: string, b: string)
    ensures NormaliseLabel(a + b) == NormaliseLabel(a) + NormaliseLabel(b)
  {
    assert ToLower(a + b) == ToLower(a) + ToLower(b);
    WithoutAppend(ToLower(a), ToLower(b), IsSpace);
  }

  /** A whitespace character is dropped, any other one lowercased. */
  lemma NormaliseLabelChar(c: char)
    ensures NormaliseLabel([c]) == if IsSpace(c) then [] else [LowerChar(c)]
  {
    assert ToLower([c]) == [LowerChar(c)];
    assert [LowerChar(c)] == [LowerChar(c)] + [];
    WithoutAppend([LowerChar(c)], [], IsSpace);
  }

  /** One row of the main-data section: the text content of its label and value elements. */
  datatype FeatureItem = FeatureItem(labelText: Option<string>, valueText: Option<string>)

  /**
   * The entry a row adds to the table: its normalised label and its
   * value, when both label and value are non-empty once trimmed.
   */
  function ItemEntry(item: FeatureItem): (e: Option<(string, string)>)
    ensures e.Some? ==> e.value.1 != []
  {
    var heading := GetText(item.labelText);
    var value := GetText(item.valueText);
    if Truthy(heading) && Truthy(value) then Some((NormaliseLabel(heading.value), value.value)) else None
  }

  /** The entries of the rows, in order. */
  function Entries(items: seq<FeatureItem>): (es: seq<Option<(string, string)>>)
    ensures |es| == |items| && forall i :: 0 <= i < |items| ==> es[i] == ItemEntry(items[i])
  {
    seq(|items|, i requires 0 <= i < |items| => ItemEntry(items[i]))
  }

  /** The entry files a value under `key`. */
  predicate Files(e: Option<(string, string)>, key: string) {
    e.Some? && e.value.0 == key
  }

  /** A dictionary filled from `entries` in order, each entry overwriting the key it files. */
  function Fill(entries: seq<Option<(string, string)>>): (table: map<string, string>)
  {
    if entries == [] then map[]
    else
      var table := Fill(entries[..|entries| - 1]);
      var last := entries[|entries| - 1];
      if last.Some? then table[last.value.0 := last.value.1] else table
  }

  /** `parsedFeatures` once the rows in `items` have been read. */
  function FeatureTable(items: seq<FeatureItem>): map<string, string> {
    Fill(Entries(items))
  }

  /**
   * A filled dictionary is one where the last entry wins: a key is present
   * exactly when some entry files it, and then holds the value of the last
   * entry that does.
   */
  lemma FillLastWins(entries: seq<Option<(string, string)>>, key: string)
    ensures key in Fill(entries) <==> exists i :: 0 <= i < |entries| && Files(entries[i], key)
    ensures forall i :: 0 <= i < |entries| && Files(entries[i], key)
                        && (forall j :: i < j < |entries| ==> !Files(entries[j], key))
                        ==> Fill(entries)[key] == entries[i].value.1
  {
    if key in Fill(entries) {
      var i := FillKeySource(entries, key);
    }
    forall i | 0 <= i < |entries| && Files(entries[i], key)
      ensures key in Fill(entries)
    {
      FillKeyPresent(entries, key, i);
    }
    forall i | 0 <= i < |entries| && Files(entries[i], key) && (forall j :: i < j < |entries| ==> !Files(entries[j], key))
      ensures Fill(entries)[key] == entries[i].value.1
    {
      FillValue(entries, key, i);
    }
  }

  lemma {:induction false} FillKeySource(entries: seq<Option<(string, string)>>, key: string) returns (i: nat)
    requires key in Fill(entries)
    ensures i < |entries| && Files(entries[i], key)
  {
    var n := |entries| - 1;
    if Files(entries[n], key) {
      i := n;
    } else {
      var init := entries[..n];
      assert key in Fill(init);
      i := FillKeySource(init, key);
      assert init[i] == entries[i];
    }
  }

  lemma {:induction false} FillKeyPresent(entries: seq<Option<(string, string)>>, key: string, i: nat)
    requires i < |entries| && Files(entries[i], key)
    ensures key in Fill(entries)
  {
    var n := |entries| - 1;
    if i < n {
      var init := entries[..n];
      assert init[i] == entries[i];
      FillKeyPresent(init, key, i);
    }
  }

  lemma {:induction false} FillValue(entries: seq<Option<(string, string)>>, key: string, i: nat)
    requires i < |entries| && Files(entries[i], key)
    requires forall j :: i < j < |entries| ==> !Files(entries[j], key)
    ensures key in Fill(entries) && Fill(entries)[key] == entries[i].value.1
  {
    var n := |entries| - 1;
    var init := entries[..n];
    if i < n {
      assert init[i] == entries[i];
      assert forall j :: i < j < n ==> init[j] == entries[j];
      FillValue(init, key, i);
      assert !Files(entries[n], key);
    }
  }

  /** Every value in the table is non-empty, so `features[key] ? … : …` tests only presence. */
  lemma {:induction false} FillValuesNonEmpty(entries: seq<Option<(string, string)>>)
    requires forall i :: 0 <= i < |entries| && entries[i].Some? ==> entries[i].value.1 != []
    ensures forall key :: key in Fill(entries) ==> Fill(entries)[key] != []
  {
    if entries != [] {
      FillValuesNonEmpty(entries[..|entries| - 1]);
    }
  }

  /** Filling one more entry. */
  lemma FillStep(es: seq<Option<(string, string)>>, i: nat)
    requires i < |es|
    ensures Fill(es[..i + 1]) == if es[i].Some? then Fill(es[..i])[es[i].value.0 := es[i].value.1] else Fill(es[..i])
  {
    assert es[..i + 1][..i] == es[..i];
  }

  /** The loop that fills `parsedFeatures`. */
  method CollectFeatures(items: seq<FeatureItem>) returns (table: map<string, string>)
    ensures table == FeatureTable(items)
  {
    ghost var es := Entries(items);
    table := map[];
    for i := 0 to |items|
      invariant table == Fill(es[..i])
    {
      FillStep(es, i);
      var heading := GetText(items[i].labelText);
      var value := GetText(items[i].valueText);
      assert es[i] == ItemEntry(items[i]);
      if Truthy(heading) && Truthy(value) {
        table := table[NormaliseLabel(heading.value) := value.value];
      }
    }
    assert es[..|items|] == es;
  }

  // ---------------------------------------------------------------------
  // The record built from one detail page
  // ---------------------------------------------------------------------

  /**
   * What the detail page holds: the raw text content of each element the
   * scraper reads (None when the element is absent), and the rows of the
   * main-data section (None when there is no such section).
   */
  datatype DetailPage = DetailPage(
    title: Option<string>, description: Option<string>, dateText: Option<string>,
    kmText: Option<string>, priceText: Option<string>, yearText: Option<string>,
    city: Option<string>, seller: Option<string>, displacementText: Option<string>,
    likesText: Option<string>, mainData: Option<seq<FeatureItem>>)

  /** The record handed to the database insert (`NaN` is sent as null, like a missing number). */
  datatype ScrapedRecord = ScrapedRecord(
    titolo: Option<string>, descrizione: Option<string>, comune: Option<string>,
    nome_venditore: Option<string>, cilindrata: Option<nat>, marca: Option<string>,
    modello: Option<string>, prezzo: Option<Decimal>, anno: Option<nat>, km: Option<nat>,
    likes: Option<nat>, data_pubblicazione: Option<Stamp>, link_annuncio: string, created_at: Stamp)

  /** The price as the loop computes it: the cleaned text read by `parseFloat`, null when the cleaned text is empty. */
  function ScrapedPrice(priceText: Option<string>): (r: Option<Decimal>)
  {
    if priceText.None? then None
    else
      var cleaned := CleanPrice(priceText.value);
      if cleaned == [] then None else ParseFloat(cleaned)
  }

  /** The loop's inline price parsing agrees with `parsePrice` on every text. */
  lemma ScrapedPriceIsParsePrice(priceText: Option<string>)
    ensures ScrapedPrice(priceText) == ParsePrice(priceText)
  {
    if priceText.Some? && priceText.value == [] {
      assert CleanPrice([]) == [];
    }
  }

  /** `features[key] || null` on a text entry. */
  function FeatureText(features: map<string, string>, key: string): (r: Option<string>)
    ensures r.Some? <==> key in features && features[key] != []
    ensures r.Some? ==> r.value == features[key]
  {
    if key in features && features[key] != [] then Some(features[key]) else None
  }

  /** `features[key] ? parseInt(features[key] without non-digits) : positional`: the table wins over the positional field. */
  function Preferred(features: map<string, string>, key: string, positional: Option<nat>): (r: Option<nat>)
  {
    if key in features && features[key] != [] then ParseNumber(Some(features[key])) else positional
  }

  /** The features of a page: its main-data rows, or none without the section. */
  function PageFeatures(page: DetailPage): seq<FeatureItem> {
    if page.mainData.Some? then page.mainData.value else []
  }

  /**
   * The record of a loaded detail page at `url`, with the clock reading
   * `now`; None when the page has no insertion-date element, since
   * `parseSubitoDate(undefined)` throws and the listing counts as an error.
   */
  function BuildRecord(page: DetailPage, url: string, now: DateTime): (r: Option<ScrapedRecord>)
    requires ValidDate(now.date)
    ensures r.Some? <==> page.dateText.Some?
    ensures r.Some? ==> r.value.link_annuncio == url && r.value.created_at == Iso(now)
  {
    if page.dateText.None? then None
    else
      var data := ParseSubitoDate(GetText(page.dateText).value, now);
      Some(AssembleRecord(page, FeatureTable(PageFeatures(page)), data, url, now))
  }

  /** The object literal of the record, from the page, its feature table and its parsed publication date. */
  function AssembleRecord(page: DetailPage, features: map<string, string>, data: Option<Stamp>,
                          url: string, now: DateTime): ScrapedRecord
  {
    var seller := GetText(page.seller);
    ScrapedRecord(
      titolo := GetText(page.title),
      descrizione := GetText(page.description),
      comune := GetText(page.city),
      nome_venditore := if Truthy(seller) then seller else None,
      cilindrata := ParseNumber(GetText(page.displacementText)),
      marca := FeatureText(features, "marca"),
      modello := FeatureText(features, "modello"),
      prezzo := NonZeroDecimal(ScrapedPrice(GetText(page.priceText))),
      anno := Preferred(features, "immatricolazione", ParseNumber(GetText(page.yearText))),
      km := Preferred(features, "km", ParseNumber(GetText(page.kmText))),
      likes := ParseNumber(GetText(page.likesText)),
      data_pubblicazione := data,
      link_annuncio := url,
      created_at := Iso(now))
  }

  /** The record built from a page with an insertion date is the object literal over its feature table. */
  lemma BuildRecordAssembles(page: DetailPage, url: string, now: DateTime) returns (r: ScrapedRecord)
    requires ValidDate(now.date) && page.dateText.Some?
    ensures r == AssembleRecord(page, Fill(Entries(PageFeatures(page))),
                                ParseSubitoDate(GetText(page.dateText).value, now), url, now)
    ensures BuildRecord(page, url, now) == Some(r)
  {
    r := AssembleRecord(page, Fill(Entries(PageFeatures(page))),
                        ParseSubitoDate(GetText(page.dateText).value, now), url, now);
  }

  /**
   * `v` is the number of the last entry filing `key`, or `positional`
   * when no entry files it.
   */
  predicate LastFiledOr(entries: seq<Option<(string, string)>>, key: string, positional: Option<nat>, v: Option<nat>) {
    && (forall i :: 0 <= i < |entries| && Files(entries[i], key)
                    && (forall j :: i < j < |entries| ==> !Files(entries[j], key))
                    ==> v == ParseNumber(Some(entries[i].value.1)))
    && ((forall i :: 0 <= i < |entries| ==> !Files(entries[i], key)) ==> v == positional)
  }

  /** A numeric field taken from the table is read from the last entry filing its key, else it is the positional value. */
  lemma PreferredLastWins(entries: seq<Option<(string, string)>>, key: string, positional: Option<nat>)
    requires forall i :: 0 <= i < |entries| && entries[i].Some? ==> entries[i].value.1 != []
    ensures LastFiledOr(entries, key, positional, Preferred(Fill(entries), key, positional))
  {
    FillLastWins(entries, key);
  }

  /**
   * The year and the mileage come from the last main-data row labelled
   * "immatricolazione" and "km"; only when no row provides them are the
   * positional fields read.
   */
  lemma RecordPrecedence(page: DetailPage, url: string, now: DateTime)
    requires ValidDate(now.date) && page.dateText.Some?
    ensures var es := Entries(PageFeatures(page));
            var r := BuildRecord(page, url, now).value;
      && LastFiledOr(es, "immatricolazione", ParseNumber(GetText(page.yearText)), r.anno)
      && LastFiledOr(es, "km", ParseNumber(GetText(page.kmText)), r.km)
  {
    var es := Entries(PageFeatures(page));
    var features := Fill(es);
    var r := BuildRecordAssembles(page, url, now);
    assert r.anno == Preferred(features, "immatricolazione", ParseNumber(GetText(page.yearText)));
    assert r.km == Preferred(features, "km", ParseNumber(GetText(page.kmText)));
    PreferredLastWins(es, "immatricolazione", ParseNumber(GetText(page.yearText)));
    PreferredLastWins(es, "km", ParseNumber(GetText(page.kmText)));
  }

  /** `v` is the text of the last entry filing `key`, or null when no entry files it. */
  predicate LastFiledText(entries: seq<Option<(string, string)>>, key: string, v: Option<string>) {
    && (forall i :: 0 <= i < |entries| && Files(entries[i], key)
                    && (forall j :: i < j < |entries| ==> !Files(entries[j], key))
                    ==> v == Some(entries[i].value.1))
    && ((forall i :: 0 <= i < |entries| ==> !Files(entries[i], key)) ==> v.None?)
  }

  /** A text field taken from the table is the value of the last entry filing its key. */
  lemma FeatureTextLastWins(entries: seq<Option<(string, string)>>, key: string)
    requires forall i :: 0 <= i < |entries| && entries[i].Some? ==> entries[i].value.1 != []
    ensures LastFiledText(entries, key, FeatureText(Fill(entries), key))
  {
    FillLastWins(entries, key);
  }

  /** The make and the model come from the last main-data rows labelled "marca" and "modello". */
  lemma RecordMakeAndModel(page: DetailPage, url: string, now: DateTime)
    requires ValidDate(now.date) && page.dateText.Some?
    ensures var es := Entries(PageFeatures(page));
            var r := BuildRecord(page, url, now).value;
      LastFiledText(es, "marca", r.marca) && LastFiledText(es, "modello", r.modello)
  {
    var es := Entries(PageFeatures(page));
    var r := BuildRecordAssembles(page, url, now);
    FeatureTextLastWins(es, "marca");
    FeatureTextLastWins(es, "modello");
  }

  /** The price of a record is `parsePrice` of the price text, with 0 turned into null. */
  lemma RecordPrice(page: DetailPage, url: string, now: DateTime)
    requires ValidDate(now.date) && page.dateText.Some?
    ensures BuildRecord(page, url, now).value.prezzo == NonZeroDecimal(ParsePrice(GetText(page.priceText)))
  {
    ScrapedPriceIsParsePrice(GetText(page.priceText));
  }

  /** What opening a listing yields: a navigation or scraping failure, or the page. */
  datatype DetailLoad = DetailFailed | DetailLoaded(page: DetailPage)

  /** The record a listing contributes, None when its scrape throws. */
  function DetailRecord(load: DetailLoad, url: string, now: DateTime): (r: Option<ScrapedRecord>)
    requires ValidDate(now.date)
    ensures r.Some? ==> load.DetailLoaded? && load.page.dateText.Some? && r.value.link_annuncio == url
    ensures load.DetailLoaded? ==> r == BuildRecord(load.page, url, now)
    ensures load.DetailFailed? ==> r.None?
  {
    match load
    case DetailFailed => None
    case DetailLoaded(page) => BuildRecord(page, url, now)
  }

  /** The body of the `try` around one listing: collect the features, then assemble the record. */
  method ScrapeDetail(load: DetailLoad, url: string, now: DateTime) returns (r: Option<ScrapedRecord>)
    requires ValidDate(now.date)
    ensures r == DetailRecord(load, url, now)
  {
    if load.DetailFailed? {
      return None;
    }
    var page := load.page;
    if page.dateText.None? {
      return None;
    }
    var data := ParseSubitoDate(GetText(page.dateText).value, now);
    var features := CollectFeatures(PageFeatures(page));
    r := Some(AssembleRecord(page, features, data, url, now));
  }

  // ---------------------------------------------------------------------
  // The crawl
  // ---------------------------------------------------------------------

  /** The caps of a run: the first page URL, MAX_PAGES_TO_SCRAPE and MAX_TOTAL_LISTINGS. */
  datatype Config = Config(baseUrl: string, maxPages: int, maxTotal: int)

  /** What loading one search page yields: a navigation error, or the `href` of each listing card. */
  datatype PageLoad = NavigationFailed | Listed(hrefs: seq<Option<string>>)

  /**
   * The counters of the loop, with what it did so far: the URLs it tried
   * to load, in order, and the records it handed to the insert.
   */
  datatype Progress = Progress(
    pageNumber: nat, total: nat, errors: nat, visited: seq<string>, records: seq<ScrapedRecord>)

  function Max0(n: int): nat {
    if n < 0 then 0 else n
  }

  function Min(a: int, b: int): int {
    if a <= b then a else b
  }

  /**
   * What visiting one listing yields, given the page number, the link's
   * position on the page and its URL: a record, or None when the detail
   * page failed.
   */
  type Visit = (nat, nat, string) -> Option<ScrapedRecord>

  /** The visit of `runScraper`: the detail page's record, with the clock read once as `now`. */
  function DetailVisit(details: (nat, nat) -> DetailLoad, now: DateTime): (visit: Visit)
    requires ValidDate(now.date)
    ensures forall n, i, url :: visit(n, i, url) == DetailRecord(details(n, i), url, now)
  {
    (n: nat, i: nat, url: string) => DetailRecord(details(n, i), url, now)
  }

  /** One listing with an href: its record or an error, and it counts either way. */
  function VisitListing(rec: Option<ScrapedRecord>, p: Progress): (q: Progress)
    ensures q.total == p.total + 1 && q.pageNumber == p.pageNumber && q.visited == p.visited
    ensures q.errors + |q.records| == p.errors + |p.records| + 1
    ensures rec.None? ==> q.errors == p.errors + 1 && q.records == p.records
    ensures rec.Some? ==> q.errors == p.errors && q.records == p.records + [rec.value]
  {
    match rec
    case None => p.(errors := p.errors + 1, total := p.total + 1)
    case Some(r) => p.(records := p.records + [r], total := p.total + 1)
  }

  /**
   * The inner loop from link `i` of page `pageNumber` on: stop once the
   * total cap is reached, skip a link without href, visit any other.
   */
  function ScrapeLinks(cfg: Config, visit: Visit, pageNumber: nat, hrefs: seq<Option<string>>,
                       i: nat, p: Progress): (q: Progress)
    requires i <= |hrefs|
    ensures q.pageNumber == p.pageNumber && q.visited == p.visited
    ensures q.errors + |q.records| - q.total == p.errors + |p.records| - p.total
    decreases |hrefs| - i
  {
    if i == |hrefs| || p.total >= cfg.maxTotal then p
    else if !Truthy(hrefs[i]) then ScrapeLinks(cfg, visit, pageNumber, hrefs, i + 1, p)
    else
      var next := VisitListing(visit(pageNumber, i, hrefs[i].value), p);
      ScrapeLinks(cfg, visit, pageNumber, hrefs, i + 1, next)
  }

  /** The outer loop from the state `p` on. */
  function ScrapeFrom(cfg: Config, pages: string -> PageLoad, visit: Visit, p: Progress): Progress
    decreases if p.pageNumber <= cfg.maxPages then cfg.maxPages + 1 - p.pageNumber else 0
  {
    if !(p.pageNumber <= cfg.maxPages && p.total < cfg.maxTotal) then p
    else
      var url := PageUrl(cfg.baseUrl, p.pageNumber);
      var q := p.(visited := p.visited + [url]);
      match pages(url)
      case NavigationFailed =>
        ScrapeFrom(cfg, pages, visit, q.(errors := q.errors + 1, pageNumber := q.pageNumber + 1))
      case Listed(hrefs) =>
        if |hrefs| == 0 then q
        else
          var r := ScrapeLinks(cfg, visit, q.pageNumber, hrefs, 0, q);
          ScrapeFrom(cfg, pages, visit, r.(pageNumber := r.pageNumber + 1))
  }

  /** The state the loop starts from. */
  const Start := Progress(1, 0, 0, [], [])

  /** A whole run. */
  function Scrape(cfg: Config, pages: string -> PageLoad, visit: Visit): Progress {
    ScrapeFrom(cfg, pages, visit, Start)
  }

  /** Opening the `i`-th listing of page `pageNumber` and scraping it. */
  method VisitDetail(details: (nat, nat) -> DetailLoad, now: DateTime, pageNumber: nat, i: nat, url: string)
    returns (rec: Option<ScrapedRecord>)
    requires ValidDate(now.date)
    ensures rec == DetailVisit(details, now)(pageNumber, i, url)
  {
    rec := ScrapeDetail(details(pageNumber, i), url, now);
  }

  /**
   * The inner loop of `runScraper` over the link elements of page
   * `pageNumber`, from the counters `p` on.
   */
  method ScrapePage(cfg: Config, details: (nat, nat) -> DetailLoad, now: DateTime,
                    pageNumber: nat, hrefs: seq<Option<string>>, p: Progress)
    returns (q: Progress)
    requires ValidDate(now.date) && p.pageNumber == pageNumber
    ensures q == ScrapeLinks(cfg, DetailVisit(details, now), pageNumber, hrefs, 0, p)
  {
    ghost var visit := DetailVisit(details, now);
    q := p;
    var i := 0;
    while i < |hrefs|
      invariant i <= |hrefs|
      invariant ScrapeLinks(cfg, visit, pageNumber, hrefs, i, q) == ScrapeLinks(cfg, visit, pageNumber, hrefs, 0, p)
    {
      if q.total >= cfg.maxTotal {
        break;
      }
      var href := hrefs[i];
      if !Truthy(href) {
        i := i + 1;
        continue;
      }
      assert ScrapeLinks(cfg, visit, pageNumber, hrefs, i, q)
             == ScrapeLinks(cfg, visit, pageNumber, hrefs, i + 1, VisitListing(visit(pageNumber, i, href.value), q));
      var rec := VisitDetail(details, now, pageNumber, i, href.value);
      ghost var before := q;
      if rec.None? {
        q := q.(errors := q.errors + 1);
      } else {
        q := q.(records := q.records + [rec.value]);
      }
      q := q.(total := q.total + 1);
      assert q == VisitListing(rec, before);
      i := i + 1;
    }
  }

  /**
   * `runScraper` with the browser replaced by `pages` (keyed by URL) and
   * `details` (keyed by page number and link position), and the clock read
   * once as `now`.
   */
  method RunScraper(cfg: Config, pages: string -> PageLoad, details: (nat, nat) -> DetailLoad, now: DateTime)
    returns (result: Progress)
    requires ValidDate(now.date)
    ensures result == Scrape(cfg, pages, DetailVisit(details, now))
  {
    ghost var visit := DetailVisit(details, now);
    var p := Start;
    while p.pageNumber <= cfg.maxPages && p.total < cfg.maxTotal
      invariant ScrapeFrom(cfg, pages, visit, p) == Scrape(cfg, pages, visit)
      decreases cfg.maxPages + 1 - p.pageNumber
    {
      var url := PageUrl(cfg.baseUrl, p.pageNumber);
      p := p.(visited := p.visited + [url]);
      var load := pages(url);
      if load.NavigationFailed? {
        p := p.(errors := p.errors + 1, pageNumber := p.pageNumber + 1);
        continue;
      }
      if |load.hrefs| == 0 {
        break;
      }
      p := ScrapePage(cfg, details, now, p.pageNumber, load.hrefs, p);
      p := p.(pageNumber := p.pageNumber + 1);
    }
    result := p;
  }

  // ---------------------------------------------------------------------
  // What every run guarantees
  // ---------------------------------------------------------------------

  /** The number of links that have an href. */
  function CountHrefs(hrefs: seq<Option<string>>): (n: nat)
    ensures n <= |hrefs|
  {
    if hrefs == [] then 0 else (if Truthy(hrefs[0]) then 1 else 0) + CountHrefs(hrefs[1..])
  }

  /**
   * On one page the total grows by the number of links with an href, up to
   * the cap: links without href are not counted, every other link is,
   * whether its scrape succeeds or not.
   */
  lemma {:induction false} ScrapeLinksCount(cfg: Config, visit: Visit, pageNumber: nat,
                                            hrefs: seq<Option<string>>, i: nat, p: Progress)
    requires i <= |hrefs| && p.total <= Max0(cfg.maxTotal)
    ensures ScrapeLinks(cfg, visit, pageNumber, hrefs, i, p).total
            == Min(Max0(cfg.maxTotal), p.total + CountHrefs(hrefs[i..]))
    ensures ScrapeLinks(cfg, visit, pageNumber, hrefs, i, p).total <= Max0(cfg.maxTotal)
    decreases |hrefs| - i
  {
    if i == |hrefs| {
      assert hrefs[i..] == [];
    } else if p.total < cfg.maxTotal {
      assert hrefs[i..][1..] == hrefs[i + 1..];
      if !Truthy(hrefs[i]) {
        ScrapeLinksCount(cfg, visit, pageNumber, hrefs, i + 1, p);
      } else {
        var next := VisitListing(visit(pageNumber, i, hrefs[i].value), p);
        ScrapeLinksCount(cfg, visit, pageNumber, hrefs, i + 1, next);
      }
    }
  }

  /** The number of visited URLs whose navigation failed. */
  function NavigationFailures(pages: string -> PageLoad, urls: seq<string>): (n: nat)
    ensures n <= |urls|
  {
    if urls == [] then 0
    else NavigationFailures(pages, urls[..|urls| - 1]) + (if pages(urls[|urls| - 1]).NavigationFailed? then 1 else 0)
  }

  /** The invariant the outer loop keeps. */
  predicate Consistent(cfg: Config, pages: string -> PageLoad, p: Progress) {
    && p.pageNumber >= 1
    && |p.visited| == p.pageNumber - 1
    && |p.visited| <= Max0(cfg.maxPages)
    && (forall k :: 0 <= k < |p.visited| ==> p.visited[k] == PageUrl(cfg.baseUrl, k + 1))
    && (forall k :: 0 <= k < |p.visited| ==> pages(p.visited[k]) != Listed([]))
    && p.total <= Max0(cfg.maxTotal)
    && p.errors + |p.records| == p.total + NavigationFailures(pages, p.visited)
  }

  /** What holds when the loop is over. */
  predicate Finished(cfg: Config, pages: string -> PageLoad, r: Progress) {
    && r.total <= Max0(cfg.maxTotal)
    && |r.visited| <= Max0(cfg.maxPages)
    && (forall k :: 0 <= k < |r.visited| ==> r.visited[k] == PageUrl(cfg.baseUrl, k + 1))
    && (forall k :: 0 <= k < |r.visited| - 1 ==> pages(r.visited[k]) != Listed([]))
    && r.errors + |r.records| == r.total + NavigationFailures(pages, r.visited)
  }

  /**
   * The properties of the finished run, from any consistent state: the
   * caps hold, the pages were tried in order from the current one, only
   * the last page tried can be empty, and every error is either a failed
   * navigation or a listing that produced no record.
   */
  lemma {:induction false} ScrapeFromFacts(cfg: Config, pages: string -> PageLoad, visit: Visit, p: Progress)
    requires Consistent(cfg, pages, p)
    ensures Finished(cfg, pages, ScrapeFrom(cfg, pages, visit, p))
    decreases if p.pageNumber <= cfg.maxPages then cfg.maxPages + 1 - p.pageNumber else 0
  {
    if p.pageNumber <= cfg.maxPages && p.total < cfg.maxTotal {
      var url := PageUrl(cfg.baseUrl, p.pageNumber);
      var q := p.(visited := p.visited + [url]);
      match pages(url)
      case NavigationFailed =>
        var next := q.(errors := q.errors + 1, pageNumber := q.pageNumber + 1);
        assert ScrapeFrom(cfg, pages, visit, p) == ScrapeFrom(cfg, pages, visit, next);
        AfterNavigationFailure(cfg, pages, p);
        ScrapeFromFacts(cfg, pages, visit, next);
      case Listed(hrefs) =>
        if |hrefs| == 0 {
          assert ScrapeFrom(cfg, pages, visit, p) == q;
          AfterEmptyPage(cfg, pages, p);
        } else {
          var r := ScrapeLinks(cfg, visit, q.pageNumber, hrefs, 0, q);
          var next := r.(pageNumber := r.pageNumber + 1);
          assert ScrapeFrom(cfg, pages, visit, p) == ScrapeFrom(cfg, pages, visit, next);
          AfterPage(cfg, pages, visit, p, hrefs);
          ScrapeFromFacts(cfg, pages, visit, next);
        }
    } else {
      ConsistentFinished(cfg, pages, p);
    }
  }

  /** A consistent state is a finished one. */
  lemma ConsistentFinished(cfg: Config, pages: string -> PageLoad, p: Progress)
    requires Consistent(cfg, pages, p)
    ensures Finished(cfg, pages, p)
  {
  }

  /** The URL of the current page is appended to the visited ones: the order is kept and the cap respected. */
  lemma VisitNext(cfg: Config, pages: string -> PageLoad, p: Progress)
    requires Consistent(cfg, pages, p) && p.pageNumber <= cfg.maxPages
    ensures var v := p.visited + [PageUrl(cfg.baseUrl, p.pageNumber)];
      && |v| == p.pageNumber && |v| <= Max0(cfg.maxPages)
      && (forall k :: 0 <= k < |v| ==> v[k] == PageUrl(cfg.baseUrl, k + 1))
      && NavigationFailures(pages, v) == NavigationFailures(pages, p.visited)
         + (if pages(PageUrl(cfg.baseUrl, p.pageNumber)).NavigationFailed? then 1 else 0)
  {
    var v := p.visited + [PageUrl(cfg.baseUrl, p.pageNumber)];
    assert v[..|v| - 1] == p.visited;
  }

  lemma AfterNavigationFailure(cfg: Config, pages: string -> PageLoad, p: Progress)
    requires Consistent(cfg, pages, p) && p.pageNumber <= cfg.maxPages
    requires pages(PageUrl(cfg.baseUrl, p.pageNumber)).NavigationFailed?
    ensures var q := p.(visited := p.visited + [PageUrl(cfg.baseUrl, p.pageNumber)]);
      Consistent(cfg, pages, q.(errors := q.errors + 1, pageNumber := q.pageNumber + 1))
  {
    VisitNext(cfg, pages, p);
  }

  lemma AfterEmptyPage(cfg: Config, pages: string -> PageLoad, p: Progress)
    requires Consistent(cfg, pages, p) && p.pageNumber <= cfg.maxPages
    requires pages(PageUrl(cfg.baseUrl, p.pageNumber)) == Listed([])
    ensures Finished(cfg, pages, p.(visited := p.visited + [PageUrl(cfg.baseUrl, p.pageNumber)]))
  {
    VisitNext(cfg, pages, p);
  }

  /** A page with links, whatever its links gave, leaves a consistent state for the next page. */
  lemma AfterPage(cfg: Config, pages: string -> PageLoad, visit: Visit, p: Progress, hrefs: seq<Option<string>>)
    requires Consistent(cfg, pages, p) && p.pageNumber <= cfg.maxPages
    requires pages(PageUrl(cfg.baseUrl, p.pageNumber)) == Listed(hrefs) && |hrefs| != 0
    ensures var q := p.(visited := p.visited + [PageUrl(cfg.baseUrl, p.pageNumber)]);
            var r := ScrapeLinks(cfg, visit, q.pageNumber, hrefs, 0, q);
      Consistent(cfg, pages, r.(pageNumber := r.pageNumber + 1))
  {
    var q := p.(visited := p.visited + [PageUrl(cfg.baseUrl, p.pageNumber)]);
    ScrapeLinksCount(cfg, visit, q.pageNumber, hrefs, 0, q);
    AfterLinks(cfg, pages, p, hrefs, ScrapeLinks(cfg, visit, q.pageNumber, hrefs, 0, q));
  }

  lemma AfterLinks(cfg: Config, pages: string -> PageLoad, p: Progress, hrefs: seq<Option<string>>, r: Progress)
    requires Consistent(cfg, pages, p) && p.pageNumber <= cfg.maxPages
    requires pages(PageUrl(cfg.baseUrl, p.pageNumber)) == Listed(hrefs) && |hrefs| != 0
    requires r.visited == p.visited + [PageUrl(cfg.baseUrl, p.pageNumber)] && r.pageNumber == p.pageNumber
    requires r.errors + |r.records| - r.total == p.errors + |p.records| - p.total
    requires r.total <= Max0(cfg.maxTotal)
    ensures Consistent(cfg, pages, r.(pageNumber := r.pageNumber + 1))
  {
    VisitNext(cfg, pages, p);
    var v := r.visited;
    forall k | 0 <= k < |v|
      ensures pages(v[k]) != Listed([])
    {
      if k < |p.visited| {
        assert v[k] == p.visited[k];
      }
    }
  }

  /** Every run keeps within MAX_TOTAL_LISTINGS and MAX_PAGES_TO_SCRAPE. */
  lemma RunWithinCaps(cfg: Config, pages: string -> PageLoad, visit: Visit)
    ensures Scrape(cfg, pages, visit).total <= Max0(cfg.maxTotal)
    ensures |Scrape(cfg, pages, visit).visited| <= Max0(cfg.maxPages)
  {
    ScrapeFromFacts(cfg, pages, visit, Start);
  }

  /**
   * Pages are tried in order, page k + 1 at the k-th URL, a navigation
   * error moving on to the next page, and an empty page ends the crawl.
   */
  lemma RunVisitsPagesInOrder(cfg: Config, pages: string -> PageLoad, visit: Visit)
    ensures var r := Scrape(cfg, pages, visit);
      && (forall k :: 0 <= k < |r.visited| ==> r.visited[k] == PageUrl(cfg.baseUrl, k + 1))
      && (forall k :: 0 <= k < |r.visited| - 1 ==> pages(r.visited[k]) != Listed([]))
  {
    ScrapeFromFacts(cfg, pages, visit, Start);
  }

  /**
   * Why a run ends: the page number passed MAX_PAGES_TO_SCRAPE, the total
   * reached MAX_TOTAL_LISTINGS, or the last page tried listed no links.
   */
  predicate Stopped(cfg: Config, pages: string -> PageLoad, r: Progress) {
    r.pageNumber > cfg.maxPages || r.total >= cfg.maxTotal
    || (|r.visited| > 0 && pages(r.visited[|r.visited| - 1]) == Listed([]))
  }

  /** From any state, the loop runs until one of its three exits. */
  lemma {:induction false} StopsFrom(cfg: Config, pages: string -> PageLoad, visit: Visit, p: Progress)
    ensures Stopped(cfg, pages, ScrapeFrom(cfg, pages, visit, p))
    decreases if p.pageNumber <= cfg.maxPages then cfg.maxPages + 1 - p.pageNumber else 0
  {
    if p.pageNumber <= cfg.maxPages && p.total < cfg.maxTotal {
      var url := PageUrl(cfg.baseUrl, p.pageNumber);
      var q := p.(visited := p.visited + [url]);
      match pages(url)
      case NavigationFailed =>
        StopsFrom(cfg, pages, visit, q.(errors := q.errors + 1, pageNumber := q.pageNumber + 1));
      case Listed(hrefs) =>
        if |hrefs| == 0 {
          assert q.visited[|q.visited| - 1] == url;
        } else {
          var r := ScrapeLinks(cfg, visit, q.pageNumber, hrefs, 0, q);
          StopsFrom(cfg, pages, visit, r.(pageNumber := r.pageNumber + 1));
        }
    }
  }

  /**
   * Every run ends at one of the loop's exits; in particular a failed
   * navigation is never where a run stops short of both caps: the crawl
   * moves on to the next page.
   */
  lemma RunStops(cfg: Config, pages: string -> PageLoad, visit: Visit)
    ensures Stopped(cfg, pages, Scrape(cfg, pages, visit))
    ensures var r := Scrape(cfg, pages, visit);
      |r.visited| > 0 && pages(r.visited[|r.visited| - 1]).NavigationFailed?
      ==> r.pageNumber > cfg.maxPages || r.total >= cfg.maxTotal
  {
    StopsFrom(cfg, pages, visit, Start);
  }

  /** Errors are the failed navigations plus the counted listings that produced no record. */
  lemma RunErrorAccounting(cfg: Config, pages: string -> PageLoad, visit: Visit)
    ensures var r := Scrape(cfg, pages, visit);
      r.errors + |r.records| == r.total + NavigationFailures(pages, r.visited)
  {
    ScrapeFromFacts(cfg, pages, visit, Start);
  }
}
