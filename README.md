# raspi-moto scraper core in Dafny

This project models the part of the raspi-moto scraper that decides things.
The scraper collects used-motorcycle listings from the Subito.it classifieds,
turns their text into records and keeps them in a Supabase table. The
browser, the database client and the clocks are not modelled. The model
takes what they deliver as inputs: page loads, detail pages, DOM query
results, a clock reading and the faults a database call meets. It covers
four source files:

- `src/utils.js` (module `Utils`, with string built-ins in `Text`, the
  `parseFloat` prefix reader in `Values` and calendar days in `Calendar`):
  - `parseNumber`, `parsePrice`, the loose `parseDate`, `buildFullUrl`,
    `extractListingId`, `truncate` and `validateListing` as functions;
  - `withRetry` as a method with a loop over an abstract sequence of
    attempt outcomes.
- `src/scraper.js` (modules `SubitoDate` and `Scraper`):
  - the strict date parser `parseSubitoDate`;
  - the page-URL rule;
  - the feature-label table built by a loop (`CollectFeatures`);
  - the record assembled from a detail page;
  - the two nested crawl loops of `runScraper`. They are written as methods
    (`ScrapePage`, `RunScraper`) and proved equal to a functional
    specification (`ScrapeLinks`, `ScrapeFrom`). The run's properties are
    then proved about that specification.
- `src/supabase.js` (module `Supabase`): `upsertListing` and
  `upsertListingsBatch` as methods of a `ListingStore` class.
  - The class holds the table as a sequence of rows with ids.
  - Both methods are proved equal to the functions `Upsert` and
    `UpsertBatch`, about which the insert/update/skip and tally
    properties are proved.
- `src/parser.js` (module `Parser`):
  - the link filter with its order-preserving de-duplication (a JavaScript
    `Set`), in both branches;
  - the label-to-field mapping of `extractMainData`, written as its nested
    loop and proved equal to a "last matching item wins" specification;
  - the record of `extractListingDetails`.

JavaScript values are modelled as follows:

- A value that may be `null` or `undefined` is an `Option`. Falsiness of a
  string is `None` or the empty string (`Utils.Truthy`).
- `parseInt` results are unbounded naturals.
- `parseFloat` results are exact decimals (`Values.Decimal`, a canonical
  mantissa and power of ten).
- A `Date` is an abstract local `Calendar.DateTime`, with a previous-day
  function on valid calendar dates.
- A date stamp is either such a date-time (`toISOString()` of a `Date`) or
  a literal text (`Calendar.Stamp`).

## Model

| member | source | states |
|---|---|---|
| Utils.ParseNumber | src/utils.js:8-13 | a number is returned exactly when the text is truthy and holds at least one digit; otherwise null |
| Text.KeepDigits | src/utils.js:10 | `replace(/[^\d]/g, '')` leaves only digits, is no longer than the text, and is empty exactly when the text has no digit |
| Text.KeepDigitsAppend | src/utils.js:10 | removing non-digits distributes over concatenation |
| Utils.ParseNumberOfNumeral | src/utils.js:10-12 | a decimal numeral parses back to its own value |
| Utils.ParseNumberSeparated | src/utils.js:10-12 | digit-free text around a numeral is ignored: the result is the numeral's value |
| Utils.ParseNumberExample | src/utils.js:5-13 | "5.000 km" parses to 5000, as the doc comment promises |
| Utils.Without | src/utils.js:20 | a global replace by '' leaves none of the removed characters, and every remaining character comes from the text |
| Utils.WithoutAppend | src/utils.js:20 | a global removal distributes over concatenation |
| Utils.ReplaceFirst | src/utils.js:20 | only the first ',' becomes '.': every earlier character is not a ',' and every later one is unchanged |
| Utils.CleanPriceShape | src/utils.js:20 | the cleaned price holds no '€' or whitespace, at most one '.', and no ',' before that '.' |
| Utils.CleanPriceExample | src/utils.js:20 | "€ 7.500" cleans to "7500" |
| Utils.ParsePrice | src/utils.js:18-23 | a price is returned exactly when the text is truthy and, with "€", whitespace and dots removed and the first comma made a point, starts (after leading whitespace and a sign) with a numeral; the price is a canonical decimal |
| Utils.ParsePriceDecimalComma | src/utils.js:18-23 | "1.234,50" parses to 1234.5: the dot is a thousands separator, the comma the decimal point |
| Utils.ParsePriceExample | src/utils.js:15-23 | "€ 7.500" parses to 7500 |
| Values.ParseFloat | src/utils.js:21 | a number is returned exactly when the text, after leading whitespace and a sign, starts with a numeral; the result is canonical |
| Values.ParseFloatOfNatToString | src/utils.js:21 | a decimal numeral parses to its own value |
| Values.CanonicalUnique | src/utils.js:21 | two canonical decimals of the same value are equal, so parse results compare as numbers do |
| Utils.ParseDate | src/utils.js:28-50 | null exactly for falsy text; a text holding "oggi" (any case) gives exactly now; otherwise one holding "ieri" gives now moved to the previous calendar day, time unchanged; any other text is returned trimmed |
| Calendar.PreviousDay | src/utils.js:40-41 | the day before a valid date is a valid date whose next day is the original |
| Calendar.PreviousOfNext | src/utils.js:40-41 | going one day forward and then back returns the same date |
| Calendar.PreviousDayInjective | src/utils.js:40-41 | different dates have different previous days |
| Text.TrimInfix | src/utils.js:46 | `trim` returns an infix of the text that neither starts nor ends with whitespace, and everything it drops at either end is whitespace |
| Text.TrimmedFromUnique | src/utils.js:46 | at most one infix has that shape, so the description above pins `trim` down |
| Text.TrimEmptyIff | src/utils.js:124 | a trimmed text is empty exactly when the text is all whitespace |
| Text.TrimIdempotent | src/utils.js:124 | trimming twice equals trimming once |
| Utils.BuildFullUrl | src/utils.js:55-67 | a falsy href gives null; an href starting with "http" is returned unchanged |
| Utils.BuildFullUrlIdempotent | src/utils.js:58-60 | building a URL from an absolute result returns it unchanged, whatever the base |
| Utils.ExtractListingId | src/utils.js:72-81 | a returned id is a non-empty run of `[A-Za-z0-9-]` found as "/id.htm" in the URL; null only for falsy URLs or URLs with no match |
| Utils.ExtractListingIdRoundTrip | src/utils.js:76-77 | a URL made of a slash-free prefix, "/", an id and ".htm" yields exactly that id |
| Utils.WithRetry | src/utils.js:100-117 | at most maxRetries calls; every call but the last failed; the result is the first success or, after maxRetries failures, the last error (none when maxRetries ≤ 0); the k-th sleep is initialDelay·2^k and no sleep follows the last call |
| Utils.TotalBackoff | src/utils.js:109-112 | k sleeps add up to initialDelay·(2^k − 1) |
| Utils.CleanText | src/utils.js:124 | `?.trim() \|\| null`: the trimmed text, or null exactly when the text is missing or all whitespace |
| Utils.NonZero | src/utils.js:126-127 | a numeric field is kept exactly when it is present and non-zero |
| Utils.ValidateListing | src/utils.js:122-139 | each text field is null when the raw one is missing or blank, else the raw one trimmed; each number is null when the raw one is missing or 0, else the raw one; likes defaults to 0; the publication date is the raw one when truthy, else now |
| Utils.ValidateFixedPoint | src/utils.js:122-139 | a listing is validated exactly when validating it again changes nothing |
| Utils.ValidateIdempotent | src/utils.js:122-139 | validating twice gives the record of validating once, whatever the clock says the second time |
| Utils.Truncate | src/utils.js:152-156 | 'N/A' for falsy text; text that fits is returned as is; otherwise the first maxLength characters followed by "..." |
| Utils.TruncateStable | src/utils.js:152-156 | a truncated text fits within maxLength + 3, so truncating it again with that bound leaves it alone |
| SubitoDate.MonthNumber | src/scraper.js:32-35 | a month number exists exactly for the twelve table keys |
| SubitoDate.MonthTableIsCalendar | src/scraper.js:32-35 | the table maps the k-th abbreviation of the calendar to the two-digit number k + 1, and has no other key |
| SubitoDate.MonthNumberInjective | src/scraper.js:32-35 | different abbreviations give different month numbers |
| SubitoDate.MonthNumberCaseSensitive | src/scraper.js:58-59 | an abbreviation with any upper-case letter, such as "Gen", has no month |
| SubitoDate.FindTime | src/scraper.js:39 | the leftmost HH:MM match, or none when the text has no HH:MM |
| SubitoDate.DayLengthAt | src/scraper.js:55 | a non-zero length is a "D mon alle/all' HH:MM" match at the position with that many day digits; 0 means neither one nor two digits match there, and 1 means two digits do not (the greedy `\d{1,2}`) |
| SubitoDate.FindDayForm | src/scraper.js:55 | the leftmost position where the day form matches, or none |
| SubitoDate.PadDay | src/scraper.js:61 | a one- or two-digit day is padded on the left with '0' to two characters |
| SubitoDate.ParseSubitoDate | src/scraper.js:31-62 | with "oggi" or "ieri" (any case) the result is a date-time exactly when the text has an HH:MM: today for "oggi", else the previous day, seconds and milliseconds zero; a date-time comes only from those words, and local date-time text only from a text without them |
| SubitoDate.SubitoToday | src/scraper.js:38-44 | "oggi" with its first HH:MM at i gives today at that hour and minute, :00.000 |
| SubitoDate.SubitoYesterday | src/scraper.js:46-53 | "ieri" without "oggi", with its first HH:MM at i, gives the previous calendar day at that hour and minute |
| SubitoDate.StrictRejectsBareToday | src/scraper.js:38-40 | "oggi" without HH:MM is null here, where the loose `parseDate` returns now |
| SubitoDate.SubitoDayForm | src/scraper.js:55-61 | when the first "D mon alle HH:MM" or "D mon all' HH:MM" of a text (anything before or after it) has a table month, the result is `YYYY-MM-DDTHH:MM:00` with now's year, the table's month number, the day padded to two digits and the written time |
| SubitoDate.SubitoNoForm | src/scraper.js:55-56 | text without "oggi", "ieri" or a day-form match gives null |
| SubitoDate.SubitoUnknownMonth | src/scraper.js:57-59 | when the leftmost day-form match has a month missing from the table, the result is null |
| SubitoDate.SubitoLiteralShape | src/scraper.js:60-61 | every literal result is `YYYY-MM-DDTHH:MM:00` text, with a table month, a two-digit day and an HH:MM time |
| Scraper.PageUrl | src/scraper.js:81 | page 1 is the base URL; page n ≠ 1 is the base URL + "?o=" + n |
| Scraper.PageUrlInjective | src/scraper.js:81 | different page numbers give different URLs |
| Scraper.GetText | src/scraper.js:104 | a missing element gives undefined; a present one gives the infix of its text left after stripping whitespace at both ends |
| Scraper.NormaliseLabel | src/scraper.js:130 | a label key has no whitespace and no upper-case letter |
| Scraper.NormaliseLabelAppend | src/scraper.js:130 | normalising works character by character: it distributes over concatenation |
| Scraper.NormaliseLabelChar | src/scraper.js:130 | a whitespace character is dropped and any other one lower-cased |
| Scraper.NormaliseLabelIdempotent | src/scraper.js:130 | normalising a key again changes nothing |
| Scraper.FillLastWins | src/scraper.js:127-131 | a key is in the feature table exactly when some item files it, and its value is that of the last item filing it |
| Scraper.FillValuesNonEmpty | src/scraper.js:130 | only items with a non-empty value are filed, so every table value is non-empty |
| Scraper.CollectFeatures | src/scraper.js:124-132 | the loop builds exactly the feature table of the items, in order |
| Scraper.ScrapedPriceIsParsePrice | src/scraper.js:112-114 | the inline price parsing of the crawl agrees with `parsePrice` on every text |
| Scraper.FeatureText | src/scraper.js:140-141 | a text feature is present exactly when the table has a non-empty value for it, and then it is that value |
| Scraper.FeatureTextLastWins | src/scraper.js:127-141 | a text feature read from the collected items is the value of the last item filing its key, and null when no item files it |
| Scraper.RecordMakeAndModel | src/scraper.js:127-141 | the record's `marca` and `modello` are the values of the last "marca" and "modello" rows, null when there is none |
| Scraper.BuildRecord | src/scraper.js:104-153 | a record is built exactly when the page has an insertion date, since a missing one throws; it carries the link and the creation time |
| Scraper.PreferredLastWins | src/scraper.js:143-148 | a numeric field is read from the last item filing its key, or else is the positional value |
| Scraper.RecordPrecedence | src/scraper.js:143-148 | the year and the mileage come from the last "immatricolazione" and "km" rows; the positional fields are used only when no row files them |
| Scraper.RecordPrice | src/scraper.js:112-142 | the record's price is `parsePrice` of the price text, null when zero |
| Scraper.DetailRecord | src/scraper.js:100-163 | a loaded detail page gives exactly the record `BuildRecord` builds from it, a page that fails to load gives none; a record carries the link |
| Scraper.ScrapeDetail | src/scraper.js:100-163 | scraping one detail page yields exactly its record, or the error |
| Scraper.VisitListing | src/scraper.js:155-164 | every visited link counts once, as a record or as an error, and the page and visited URLs are unchanged |
| Scraper.ScrapeLinks | src/scraper.js:95-166 | the inner loop leaves the page and the visited URLs alone, and adds as many records plus errors as listings it counts |
| Scraper.ScrapeLinksCount | src/scraper.js:95-166 | the inner loop counts the links with an href, up to the total cap, and never passes the cap |
| Scraper.ScrapePage | src/scraper.js:95-166 | the inner loop as written computes the specification `ScrapeLinks` |
| Scraper.RunScraper | src/scraper.js:64-177 | the crawl as written computes the specification `Scrape` from page 1 with zero counters |
| Scraper.ScrapeFromFacts | src/scraper.js:80-168 | from any consistent state, the loop ends within both caps, with pages tried in order, only the last tried page possibly empty, and errors accounted |
| Scraper.AfterNavigationFailure | src/scraper.js:83-90 | a navigation error counts one error, moves to the next page, and keeps the loop invariant |
| Scraper.AfterEmptyPage | src/scraper.js:92-93 | a page with no links ends the crawl in a finished state |
| Scraper.AfterPage | src/scraper.js:92-167 | a page with links keeps the loop invariant for the next page |
| Scraper.RunWithinCaps | src/scraper.js:80-96 | the total never exceeds MAX_TOTAL_LISTINGS, and at most MAX_PAGES_TO_SCRAPE pages are tried |
| Scraper.RunVisitsPagesInOrder | src/scraper.js:80-93 | the k-th page tried is page k + 1 at its URL, and no page tried before the last loaded with an empty list of links |
| Scraper.StopsFrom | src/scraper.js:80-93 | from any state the loop stops at one of its exits: past MAX_PAGES_TO_SCRAPE, at MAX_TOTAL_LISTINGS, or after a page that listed no links |
| Scraper.RunStops | src/scraper.js:80-93 | every run stops past the page cap, at the total cap, or right after a page with no links; a run whose last page failed to load stopped at a cap, since a failed navigation moves on to the next page |
| Scraper.RunErrorAccounting | src/scraper.js:80-168 | errors plus records equal the listings counted plus the failed navigations |
| Supabase.Find | src/supabase.js:20-24 | the lookup finds a row with the listing's URL, or none exists; a null URL matches no row |
| Supabase.FindStored | src/supabase.js:20-24 | in a valid table the lookup finds the one row with the URL |
| Supabase.Upsert | src/supabase.js:17-72 | a failed call leaves the table as it was; a lookup error always fails; with no fault the call succeeds; a skip changes nothing |
| Supabase.UpsertAbsent | src/supabase.js:55-66 | with no row for the URL, the listing is inserted under the next id and that id is returned; a fault raises with no write |
| Supabase.UpsertPresent | src/supabase.js:31-54 | with a row for the URL: a differing price, mileage or likes overwrites it with the listing and `updated_at`, keeping its id, or raises on a write error; otherwise it is skipped and the table unchanged |
| Supabase.UpsertKeepsValid | src/supabase.js:17-72 | an upsert keeps ids below the next id, distinct ids and at most one row per URL |
| Supabase.UpsertKeepsOtherRows | src/supabase.js:38-45 | no upsert deletes or moves a row or changes an id, and rows with other URLs are untouched |
| Supabase.UpsertTwice | src/supabase.js:31-66 | upserting the same validated listing (prezzo, km and likes all present) twice in a row succeeds, then is skipped with the same id |
| Supabase.Count | src/supabase.js:86-91 | each result adds one to exactly its own counter: `errors` when the upsert raised, else the counter named by its action |
| Supabase.BatchTallyTotal | src/supabase.js:78-94 | inserted + updated + skipped + errors equals the number of listings |
| Supabase.BatchKeepsValid | src/supabase.js:85-92 | a batch keeps the table valid |
| Supabase.BatchErrorsFromFaults | src/supabase.js:85-91 | errors are at most the listings that met a fault |
| Supabase.BatchAppend | src/supabase.js:85-92 | a failure does not stop the batch: the rest runs on the table the first part left, and the tallies add up |
| Supabase.ListingStore.constructor | src/supabase.js:6-12 | the store starts as an empty valid table |
| Supabase.ListingStore.UpsertListing | src/supabase.js:17-72 | the method changes the table and returns the outcome exactly as `Upsert` specifies, and keeps the table valid |
| Supabase.ListingStore.UpsertListingsBatch | src/supabase.js:77-95 | the loop returns the tally and leaves the table exactly as `UpsertBatch` specifies, and keeps the table valid |
| Parser.Filter | src/parser.js:27 | exactly the kept elements remain |
| Parser.FilterKeepsOrder | src/parser.js:27 | filtering keeps the order of first occurrences |
| Parser.Dedupe | src/parser.js:27 | `[...new Set(s)]` holds the same elements without repeats |
| Parser.DedupeFirstOccurrence | src/parser.js:27 | de-duplication keeps the order of first occurrence |
| Parser.DedupeOfDistinct | src/parser.js:27 | a list without repeats is unchanged |
| Parser.ExtractListingLinks | src/parser.js:22-33 | with the cards, exactly the links containing "/moto-e-scooter/" and ending in ".htm"; without them, exactly the pre-selected anchor hrefs ending in ".htm"; no link twice |
| Parser.ListingLinksFromCards | src/parser.js:22-27 | the card branch returns every link containing "/moto-e-scooter/" and ending in ".htm", and nothing else, once each, in first-seen order |
| Parser.ListingLinksFromAnchors | src/parser.js:28-31 | the fallback returns every pre-selected anchor href ending in ".htm", once each, in first-seen order |
| Parser.ExtractMainData | src/parser.js:48-69 | the nested loop computes the main data of the items in order |
| Parser.SynonymsMatch | src/parser.js:57-62 | a label matches a field exactly when its lower-cased form contains one of the field's keys; "chilometraggio" and "km" both give `km` |
| Parser.ApplyFeatureFields | src/parser.js:58-66 | one item sets each field it matches: `anno` and `km` via `parseNumber`, `marca` and `modello` to the raw value; other fields are left alone and an item without label or value changes nothing |
| Parser.MainDataLastWins | src/parser.js:48-69 | each field starts null and ends as the value of the last matching item |
| Parser.LastValue | src/parser.js:58-66 | the value of a matching item after which no item matches, or none when no item matches |
| Parser.ExtractText | src/parser.js:71-75 | a missing element gives null; a present one gives the infix of its text left after stripping whitespace at both ends |
| Parser.ExtractListingDetails | src/parser.js:35-46 | the record carries the URL; the title and the city exactly when present, with surrounding whitespace stripped; `parsePrice` of the stripped price text; and the four main-data fields of the last matching items |

## Left out

- Playwright browser control is not modelled: launch, navigation, selectors, `textContent`, `waitForSelector` and `handleCookieBanner` (src/parser.js:5-20). The DOM results are inputs:
  - `Scraper.PageLoad` per page URL;
  - `Scraper.DetailLoad` per page number and link position;
  - lists of hrefs and label/value pairs.
- The Supabase client calls are not modelled: `select`, `insert`, `update` and `single`. They are replaced by an in-memory table, and each call's error is an input `Fault`.
- `getStats` and `testConnection` (src/supabase.js:100-133) are left out: they are network I/O only.
- `sleep`, `randomDelay`, `getRandomDelay` and `waitForTimeout` are left out because they are timers and randomness.
- Utils.WithRetry: returns the requested delays instead of sleeping.
- Values.ParseFloat: reads the numeral exactly. It does not model rounding to a double, "Infinity", or results beyond the double range.
- Utils.ParseNumber: returns unbounded naturals. It does not model the loss of precision of `parseInt` beyond 2^53.
- Utils.BuildFullUrl: takes the `new URL(href, base).href` resolution as the parameter `resolve`. The `URL` algorithm is not modelled.
- `formatNumber` (src/utils.js:144-147) is left out because it is `Intl.NumberFormat` locale formatting.
- Time zones are not modelled: `toISOString`, `setHours` and `setDate` work on an abstract local date-time. An out-of-range HH:MM such as "25:70" is kept as read, not rolled over.
- Scraper.RunScraper: reads the clock once per run. The source reads it per record for `created_at`.
- Utils.ValidateListing: reads the clock once per call.
- Supabase.ListingStore.UpsertListingsBatch: reads the clock once per batch and gives every updated row that `updated_at`. The source reads `new Date()` for each update (src/supabase.js:43), so rows updated later in a batch get later times.
- Text.ToLower: folds only ASCII letters. JavaScript's `toLowerCase` folds every Unicode letter.
- Utils.Truncate: counts characters. JavaScript counts UTF-16 code units.
- Scraper.RunScraper: the database insert and its error are not modelled, because the source only logs that error. The records handed to the insert are collected instead.
- The outer `try` around the browser launch (src/scraper.js:172-176) is not modelled. A failure outside a detail page ends the run with nothing modelled after it.
- `Parser.ExtractListingLinks`: an exception thrown by the fallback query propagates to the caller. The model has no such exception.
- Parser.ExtractListingDetails: none of the modelled steps throws, so the `null` result of its `catch` never occurs.
- Supabase.Upsert: a failed insert does not advance the next id. A Postgres sequence may leave a gap.
- Supabase.Upsert: only listings carrying `prezzo`, `km` and `likes` (null or a value) are modelled, as `validateListing` produces them. An object without one of those keys (src/test.js:53-62 upserts one without `likes`) compares `undefined !== null` and is reported as updated on every re-upsert; `Supabase.UpsertTwice` does not cover it.
- Supabase.UpsertTwice: holds for listings that carry all three compared keys, as `validateListing` builds them. A listing without `likes` is re-reported as updated in the source, and that case is not expressible here.
- The default arguments are not modelled: `maxRetries = 3` and `initialDelay = 1000` of `withRetry` (src/utils.js:100), `maxLength = 100` of `truncate` (src/utils.js:152) and `min = 1000`, `max = 3000` of `randomDelay`. `Utils.WithRetry` and `Utils.Truncate` take them as parameters.
- `.single()` with several matching rows is not modelled. `Supabase.Valid` keeps at most one row per URL.
- `created_at` and the database's own columns are not modelled.
- The logger, configuration, test script and dashboard (src/logger.js, src/config.js, src/test.js, frontend/) are left out: they are set-up, I/O and rendering.
