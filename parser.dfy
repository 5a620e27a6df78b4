/**
 * src/parser.js: what `SubitoParser` does with the results of its DOM
 * queries. The link list is filtered and de-duplicated, the feature list
 * is mapped onto the four main-data fields, and the listing details are
 * assembled. The queries themselves are inputs.
 */
module Parser {
  import opened Text
  import opened Values
  import opened Utils

  // ---------------------------------------------------------------------
  // De-duplication, as `[...new Set(xs)]`
  // ---------------------------------------------------------------------

  predicate Distinct<T(==)>(s: seq<T>) {
    forall i, j :: 0 <= i < j < |s| ==> s[i] != s[j]
  }

  /** `[...new Set(s)]`: each element once, in the order of its first occurrence. */
  function Dedupe(s: seq<string>): (r: seq<string>)
    ensures forall x :: x in r <==> x in s
    ensures Distinct(r)
    ensures |r| <= |s|
  {
    if s == [] then []
    else
      var n := |s| - 1;
      var d := Dedupe(s[..n]);
      assert s == s[..n] + [s[n]];
      if s[n] in d then d else d + [s[n]]
  }

  /** The position of the first occurrence of `x` in `s`. */
  function FirstIndex<T(==)>(s: seq<T>, x: T): (k: nat)
    requires x in s
    ensures k < |s| && s[k] == x
    ensures forall j :: 0 <= j < k ==> s[j] != x
  {
    if s[0] == x then 0 else 1 + FirstIndex(s[1..], x)
  }

  /** An occurrence within a prefix is the first occurrence in the whole sequence too. */
  lemma FirstIndexPrefix<T>(s: seq<T>, n: nat, x: T)
    requires n <= |s| && x in s[..n]
    ensures FirstIndex(s, x) == FirstIndex(s[..n], x)
  {
    var k := FirstIndex(s[..n], x);
    assert forall j :: 0 <= j <= k ==> s[j] == s[..n][j];
    FirstIndexUnique(s, x, k);
  }

  /** The first occurrence is the only occurrence with none before it. */
  lemma FirstIndexUnique<T>(s: seq<T>, x: T, k: nat)
    requires k < |s| && s[k] == x && forall j :: 0 <= j < k ==> s[j] != x
    ensures FirstIndex(s, x) == k
  {
  }

  /** The elements of `r` that occur in `s` come in the order of their first occurrence in `s`. */
  predicate InFirstSeenOrder(s: seq<string>, r: seq<string>) {
    forall i, j :: 0 <= i < j < |r| && r[i] in s && r[j] in s ==> FirstIndex(s, r[i]) < FirstIndex(s, r[j])
  }

  /** The set keeps the order in which elements first appear. */
  lemma {:induction false} DedupeFirstOccurrence(s: seq<string>)
    ensures InFirstSeenOrder(s, Dedupe(s))
    decreases |s|
  {
    if s != [] {
      var n := |s| - 1;
      var d := Dedupe(s[..n]);
      DedupeFirstOccurrence(s[..n]);
      assert InFirstSeenOrder(s[..n], d);
      assert s == s[..n] + [s[n]];
      var r := Dedupe(s);
      assert r == if s[n] in d then d else d + [s[n]];
      forall i, j | 0 <= i < j < |r|
        ensures FirstIndex(s, r[i]) < FirstIndex(s, r[j])
      {
        assert r[i] == d[i] && d[i] in s[..n];
        FirstIndexPrefix(s, n, d[i]);
        if j < |d| {
          assert r[j] == d[j] && d[j] in s[..n];
          FirstIndexPrefix(s, n, d[j]);
          assert FirstIndex(s[..n], d[i]) < FirstIndex(s[..n], d[j]);
        } else {
          assert r[j] == s[n] && s[n] !in s[..n];
          assert FirstIndex(s, s[n]) == n;
        }
      }
    }
  }

  /** A sequence without repetitions is its own set. */
  lemma {:induction false} DedupeOfDistinct(s: seq<string>)
    requires Distinct(s)
    ensures Dedupe(s) == s
    decreases |s|
  {
    if s != [] {
      var n := |s| - 1;
      DedupeOfDistinct(s[..n]);
      assert s[n] !in s[..n];
      assert s[..n] + [s[n]] == s;
    }
  }

  /** `xs.filter(keep)`. */
  function Filter(xs: seq<string>, keep: string -> bool): (r: seq<string>)
    ensures forall x :: x in r <==> x in xs && keep(x)
    ensures |r| <= |xs|
  {
    if xs == [] then []
    else (if keep(xs[0]) then [xs[0]] else []) + Filter(xs[1..], keep)
  }

  // ---------------------------------------------------------------------
  // extractListingLinks
  // ---------------------------------------------------------------------

  /** What the card selector keeps: a listing under /moto-e-scooter/ with an .htm page. */
  predicate IsListingLink(l: string) {
    Contains(l, "/moto-e-scooter/") && EndsWith(l, ".htm")
  }

  /** What the fallback keeps of the anchors already selected by their /moto-e-scooter/ href. */
  predicate IsHtmLink(l: string) {
    EndsWith(l, ".htm")
  }

  /**
   * `extractListingLinks`: the hrefs of the listing cards, or None when
   * waiting for them failed, in which case the hrefs of the anchors whose
   * href attribute mentions /moto-e-scooter/ are used.
   */
  function ExtractListingLinks(cards: Option<seq<string>>, anchors: seq<string>): (r: seq<string>)
    ensures cards.Some? ==> forall x :: x in r <==> x in cards.value && IsListingLink(x)
    ensures cards.None? ==> forall x :: x in r <==> x in anchors && IsHtmLink(x)
    ensures Distinct(r)
  {
    match cards
    case Some(links) => Dedupe(Filter(links, IsListingLink))
    case None => Dedupe(Filter(anchors, IsHtmLink))
  }

  /**
   * The card branch returns each qualifying link once, in the order of
   * first appearance, and nothing else.
   */
  lemma ListingLinksFromCards(links: seq<string>, anchors: seq<string>)
    ensures var r := ExtractListingLinks(Some(links), anchors);
      && (forall x :: x in r <==> x in links && IsListingLink(x))
      && Distinct(r)
      && InFirstSeenOrder(links, r)
  {
    var kept := Filter(links, IsListingLink);
    var r := Dedupe(kept);
    DedupeFirstOccurrence(kept);
    forall i, j | 0 <= i < j < |r| && r[i] in links && r[j] in links
      ensures FirstIndex(links, r[i]) < FirstIndex(links, r[j])
    {
      assert r[i] in kept && r[j] in kept;
      FilterKeepsOrder(links, IsListingLink, r[i], r[j]);
    }
  }

  /** The fallback branch: each anchor href ending in .htm once, in order of first appearance. */
  lemma ListingLinksFromAnchors(anchors: seq<string>)
    ensures var r := ExtractListingLinks(None, anchors);
      && (forall x :: x in r <==> x in anchors && IsHtmLink(x))
      && Distinct(r)
      && InFirstSeenOrder(anchors, r)
  {
    var kept := Filter(anchors, IsHtmLink);
    var r := Dedupe(kept);
    DedupeFirstOccurrence(kept);
    forall i, j | 0 <= i < j < |r| && r[i] in anchors && r[j] in anchors
      ensures FirstIndex(anchors, r[i]) < FirstIndex(anchors, r[j])
    {
      assert r[i] in kept && r[j] in kept;
      FilterKeepsOrder(anchors, IsHtmLink, r[i], r[j]);
    }
  }

  /** Filtering keeps the relative order of first occurrences. */
  lemma {:induction false} FilterKeepsOrder(xs: seq<string>, keep: string -> bool, x: string, y: string)
    requires x in Filter(xs, keep) && y in Filter(xs, keep)
    requires FirstIndex(Filter(xs, keep), x) < FirstIndex(Filter(xs, keep), y)
    ensures FirstIndex(xs, x) < FirstIndex(xs, y)
    decreases |xs|
  {
    if xs[0] != x {
      FilterCons(xs, keep, x);
      FilterCons(xs, keep, y);
      FilterKeepsOrder(xs[1..], keep, x, y);
    }
  }

  /**
   * Filtering a sequence with a head: an element other than the head is
   * found one place further in the result when the head is kept, and the
   * head, when kept, is found first.
   */
  lemma FilterCons(xs: seq<string>, keep: string -> bool, z: string)
    requires xs != [] && z in Filter(xs, keep)
    ensures keep(xs[0]) && z == xs[0] ==> FirstIndex(Filter(xs, keep), z) == 0
    ensures z != xs[0] ==> z in Filter(xs[1..], keep)
    ensures z != xs[0] ==> FirstIndex(Filter(xs, keep), z)
                           == (if keep(xs[0]) then 1 else 0) + FirstIndex(Filter(xs[1..], keep), z)
  {
    var f := Filter(xs, keep);
    var g := Filter(xs[1..], keep);
    if keep(xs[0]) {
      assert f == [xs[0]] + g;
      assert f[1..] == g;
    } else {
      assert f == g;
    }
  }

  // ---------------------------------------------------------------------
  // extractMainData
  // ---------------------------------------------------------------------

  /** One feature item: the trimmed text of its label and of its value, absent when the element is missing. */
  datatype Feature = Feature(labelText: Option<string>, valueText: Option<string>)

  /** The four fields `extractMainData` fills. */
  datatype Field = Marca | Modello | Anno | Km

  datatype MainData = MainData(marca: Option<string>, modello: Option<string>, anno: Option<nat>, km: Option<nat>)

  /** The table from label keys to fields, in the order `Object.entries` walks it. */
  const Mapping: seq<(string, Field)> :=
    [("marca", Marca), ("modello", Modello), ("anno", Anno), ("chilometraggio", Km), ("km", Km)]

  /** `data[target] = …`: `km` and `anno` through `parseNumber`, the others as the raw value. */
  function Assign(d: MainData, target: Field, value: string): (e: MainData)
  {
    match target
    case Marca => d.(marca := Some(value))
    case Modello => d.(modello := Some(value))
    case Anno => d.(anno := ParseNumber(Some(value)))
    case Km => d.(km := ParseNumber(Some(value)))
  }

  /** The inner loop over the first entries of the mapping, for one lowercased label. */
  function ApplyKeys(d: MainData, cleanLabel: string, value: string, entries: seq<(string, Field)>): MainData
    decreases |entries|
  {
    if entries == [] then d
    else
      var n := |entries| - 1;
      var e := ApplyKeys(d, cleanLabel, value, entries[..n]);
      if Contains(cleanLabel, entries[n].0) then Assign(e, entries[n].1, value) else e
  }

  /** One step of the `forEach`: an item without label or value is passed over. */
  function ApplyFeature(d: MainData, f: Feature): MainData {
    if !Truthy(f.labelText) || !Truthy(f.valueText) then d
    else ApplyKeys(d, ToLower(f.labelText.value), f.valueText.value, Mapping)
  }

  const NoMainData := MainData(None, None, None, None)

  /** The data after the first `|features|` items. */
  function MainDataOf(features: seq<Feature>): MainData
    decreases |features|
  {
    if features == [] then NoMainData
    else ApplyFeature(MainDataOf(features[..|features| - 1]), features[|features| - 1])
  }

  /** `extractMainData` over the feature items the page query returned. */
  method ExtractMainData(features: seq<Feature>) returns (data: MainData)
    ensures data == MainDataOf(features)
  {
    data := NoMainData;
    for i := 0 to |features|
      invariant data == MainDataOf(features[..i])
    {
      assert features[..i + 1][..i] == features[..i];
      var f := features[i];
      if !Truthy(f.labelText) || !Truthy(f.valueText) {
        continue;
      }
      var cleanLabel := ToLower(f.labelText.value);
      ghost var before := data;
      for j := 0 to |Mapping|
        invariant data == ApplyKeys(before, cleanLabel, f.valueText.value, Mapping[..j])
      {
        assert Mapping[..j + 1][..j] == Mapping[..j];
        var (key, target) := Mapping[j];
        if Contains(cleanLabel, key) {
          data := Assign(data, target, f.valueText.value);
        }
      }
      assert Mapping[..|Mapping|] == Mapping;
    }
    assert features[..|features|] == features;
  }

  /** The label keys that map to each field. */
  function Synonyms(target: Field): (keys: seq<string>)
    ensures forall k :: 0 <= k < |keys| ==> (keys[k], target) in Mapping
  {
    match target
    case Marca => ["marca"]
    case Modello => ["modello"]
    case Anno => ["anno"]
    case Km => ["chilometraggio", "km"]
  }

  /** The item has a label and a value, and its lowercased label contains one of `keys`. */
  predicate Matches(f: Feature, keys: seq<string>) {
    Truthy(f.labelText) && Truthy(f.valueText)
    && exists k :: 0 <= k < |keys| && Contains(ToLower(f.labelText.value), keys[k])
  }

  /** The value of the last item that matches `keys`. */
  function LastValue(features: seq<Feature>, keys: seq<string>): (v: Option<string>)
    ensures v.Some? ==> exists i :: 0 <= i < |features| && Matches(features[i], keys) && features[i].valueText == v
                                  && forall j :: i < j < |features| ==> !Matches(features[j], keys)
    ensures v.None? ==> forall i :: 0 <= i < |features| ==> !Matches(features[i], keys)
    decreases |features|
  {
    if features == [] then None
    else
      var n := |features| - 1;
      if Matches(features[n], keys) then Some(features[n].valueText.value)
      else
        var v := LastValue(features[..n], keys);
        assert forall j :: 0 <= j < n ==> features[..n][j] == features[j];
        v
  }

  /**
   * One item sets each field whose synonyms its lowercased label
   * contains, `anno` and `km` to the number in its value, and leaves the
   * other fields alone.
   */
  lemma ApplyFeatureFields(d: MainData, f: Feature)
    ensures var e := ApplyFeature(d, f);
      && e.marca == (if Matches(f, Synonyms(Marca)) then f.valueText else d.marca)
      && e.modello == (if Matches(f, Synonyms(Modello)) then f.valueText else d.modello)
      && e.anno == (if Matches(f, Synonyms(Anno)) then ParseNumber(f.valueText) else d.anno)
      && e.km == (if Matches(f, Synonyms(Km)) then ParseNumber(f.valueText) else d.km)
  {
    if Truthy(f.labelText) && Truthy(f.valueText) {
      var clean := ToLower(f.labelText.value);
      MappingFields(d, clean, f.valueText.value);
      SynonymsMatch(f, clean);
    }
  }

  /** The inner loop over the whole table, field by field. */
  lemma MappingFields(d: MainData, clean: string, value: string)
    ensures var e := ApplyKeys(d, clean, value, Mapping);
      && e.marca == (if Contains(clean, "marca") then Some(value) else d.marca)
      && e.modello == (if Contains(clean, "modello") then Some(value) else d.modello)
      && e.anno == (if Contains(clean, "anno") then ParseNumber(Some(value)) else d.anno)
      && e.km == (if Contains(clean, "chilometraggio") || Contains(clean, "km") then ParseNumber(Some(value)) else d.km)
  {
    var e0 := d;
    assert Mapping[..0] == [];
    assert ApplyKeys(d, clean, value, Mapping[..0]) == e0;
    var e1 := ApplyKeys(d, clean, value, Mapping[..1]);
    assert Mapping[..1][..0] == Mapping[..0] && Mapping[0] == ("marca", Marca);
    assert e1 == if Contains(clean, "marca") then Assign(e0, Marca, value) else e0;
    var e2 := ApplyKeys(d, clean, value, Mapping[..2]);
    assert Mapping[..2][..1] == Mapping[..1] && Mapping[1] == ("modello", Modello);
    assert e2 == if Contains(clean, "modello") then Assign(e1, Modello, value) else e1;
    var e3 := ApplyKeys(d, clean, value, Mapping[..3]);
    assert Mapping[..3][..2] == Mapping[..2] && Mapping[2] == ("anno", Anno);
    assert e3 == if Contains(clean, "anno") then Assign(e2, Anno, value) else e2;
    var e4 := ApplyKeys(d, clean, value, Mapping[..4]);
    assert Mapping[..4][..3] == Mapping[..3] && Mapping[3] == ("chilometraggio", Km);
    assert e4 == if Contains(clean, "chilometraggio") then Assign(e3, Km, value) else e3;
    var e5 := ApplyKeys(d, clean, value, Mapping[..5]);
    assert Mapping[..5][..4] == Mapping[..4] && Mapping[4] == ("km", Km);
    assert e5 == if Contains(clean, "km") then Assign(e4, Km, value) else e4;
    assert Mapping[..5] == Mapping;
  }

  /** An item with a label and a value matches a field exactly when its lowercased label contains one of the field's keys. */
  lemma SynonymsMatch(f: Feature, clean: string)
    requires Truthy(f.labelText) && Truthy(f.valueText) && clean == ToLower(f.labelText.value)
    ensures Matches(f, Synonyms(Marca)) <==> Contains(clean, "marca")
    ensures Matches(f, Synonyms(Modello)) <==> Contains(clean, "modello")
    ensures Matches(f, Synonyms(Anno)) <==> Contains(clean, "anno")
    ensures Matches(f, Synonyms(Km)) <==> Contains(clean, "chilometraggio") || Contains(clean, "km")
  {
    assert Synonyms(Km)[0] == "chilometraggio" && Synonyms(Km)[1] == "km";
    assert Synonyms(Marca)[0] == "marca";
    assert Synonyms(Modello)[0] == "modello";
    assert Synonyms(Anno)[0] == "anno";
  }

  /**
   * Later items overwrite earlier ones: each field holds the value of the
   * last item whose label matches it (a number for `anno` and `km`), and
   * stays null when none does.
   */
  lemma {:induction false} MainDataLastWins(features: seq<Feature>)
    ensures MainDataOf(features) == MainData(
      LastValue(features, Synonyms(Marca)), LastValue(features, Synonyms(Modello)),
      ParseNumber(LastValue(features, Synonyms(Anno))), ParseNumber(LastValue(features, Synonyms(Km))))
    decreases |features|
  {
    if features != [] {
      var n := |features| - 1;
      MainDataLastWins(features[..n]);
      ApplyFeatureFields(MainDataOf(features[..n]), features[n]);
    }
  }

  // ---------------------------------------------------------------------
  // extractListingDetails
  // ---------------------------------------------------------------------

  /** `extractText`: the trimmed inner text of the first match, or null when the locator fails. */
  function ExtractText(innerText: Option<string>): (r: Option<string>)
    ensures r.Some? <==> innerText.Some?
    ensures r.Some? ==> TrimmedFrom(innerText.value, r.value)
  {
    match innerText
    case None => None
    case Some(s) => TrimInfix(s); Some(Trim(s))
  }

  /** The object `extractListingDetails` resolves to. */
  datatype Details = Details(
    link_annuncio: string, titolo: Option<string>, prezzo: Option<Decimal>, citta: Option<string>,
    marca: Option<string>, modello: Option<string>, anno: Option<nat>, km: Option<nat>)

  /**
   * `extractListingDetails`: the url, the title, the parsed price and the
   * city, spread together with the main data.
   */
  function ExtractListingDetails(url: string, title: Option<string>, price: Option<string>,
                                 city: Option<string>, features: seq<Feature>): (r: Details)
    ensures r.link_annuncio == url
    ensures r.titolo.Some? <==> title.Some?
    ensures r.citta.Some? <==> city.Some?
    ensures r.prezzo.Some? ==> price.Some? && Canonical(r.prezzo.value)
    ensures r.titolo.Some? ==> TrimmedFrom(title.value, r.titolo.value)
    ensures r.citta.Some? ==> TrimmedFrom(city.value, r.citta.value)
    ensures r.prezzo == ParsePrice(ExtractText(price))
    ensures r.marca == LastValue(features, Synonyms(Marca)) && r.modello == LastValue(features, Synonyms(Modello))
    ensures r.anno == ParseNumber(LastValue(features, Synonyms(Anno)))
    ensures r.km == ParseNumber(LastValue(features, Synonyms(Km)))
  {
    MainDataLastWins(features);
    var main := MainDataOf(features);
    Details(url, ExtractText(title), ParsePrice(ExtractText(price)), ExtractText(city),
            main.marca, main.modello, main.anno, main.km)
  }
}
