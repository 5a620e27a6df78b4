/**
 * src/utils.js: the field parsers that turn scraped text into typed
 * values, the canonical listing record, the retry loop with exponential
 * back-off, and the truncation used in log lines.
 */
module Utils {
  import opened Text
  import opened Values
  import opened Calendar

  /** A JavaScript string value that is truthy: present and not empty. */
  predicate Truthy(s: Option<string>) {
    s.Some? && s.value != ""
  }

  // ---------------------------------------------------------------------
  // parseNumber
  // ---------------------------------------------------------------------

  /**
   * `parseNumber(text)`: null for a falsy text; otherwise the digits of
   * the text read in base 10, null when there are none.
   */
  function ParseNumber(text: Option<string>): (r: Option<nat>)
    ensures r.Some? <==> Truthy(text) && HasDigit(text.value)
  {
    if !Truthy(text) then None
    else
      var cleaned := KeepDigits(text.value);
      if cleaned == [] then None else Some(DigitsValue(cleaned))
  }

  /** A numeral parses back to its number. */
  lemma ParseNumberOfNumeral(n: nat)
    ensures ParseNumber(Some(NatToString(n))) == Some(n)
  {
    KeepDigitsOfDigits(NatToString(n));
    DigitsValueOfNatToString(n);
  }

  /**
   * Text around the number that holds no digit does not change it, and
   * digits split by separators are read as one number: "5.000 km" is 5000.
   */
  lemma ParseNumberSeparated(before: string, n: nat, after: string)
    requires !HasDigit(before) && !HasDigit(after)
    ensures ParseNumber(Some(before + NatToString(n) + after)) == Some(n)
  {
    var s := NatToString(n);
    KeepDigitsAppend(before + s, after);
    KeepDigitsAppend(before, s);
    KeepDigitsNone(before);
    KeepDigitsNone(after);
    KeepDigitsOfDigits(s);
    assert [] + s + [] == s;
    DigitsValueOfNatToString(n);
  }

  lemma ParseNumberExample()
    ensures ParseNumber(Some("5.000 km")) == Some(5000)
  {
    ExampleDigits();
    ExampleNumeral();
    ParseNumberOfNumeral(5000);
    KeepDigitsOfDigits(NatToString(5000));
  }

  lemma ExampleNumeral()
    ensures NatToString(5000) == "5000"
  {
  }

  lemma ExampleDigits()
    ensures KeepDigits("5.000 km") == "5000"
  {
    ExampleSplit();
    ExampleDigitsOfPieces();
  }

  lemma ExampleSplit()
    ensures "5.000 km" == "5" + "." + "000" + " km"
  {
  }

  lemma ExampleDigitsOfPieces()
    ensures KeepDigits("5" + "." + "000" + " km") == "5000"
  {
    var a, b, c, d := "5", ".", "000", " km";
    KeepDigitsAppend(a + b + c, d);
    KeepDigitsAppend(a + b, c);
    KeepDigitsAppend(a, b);
    ExampleDigitAtoms();
  }

  lemma ExampleDigitAtoms()
    ensures KeepDigits("5") == "5" && KeepDigits(".") == ""
    ensures KeepDigits("000") == "000" && KeepDigits(" km") == ""
  {
    KeepDigitsOfDigits("000");
    assert !HasDigit(" km") by { assert !IsDigit(' ') && !IsDigit('k') && !IsDigit('m'); }
    KeepDigitsNone(" km");
  }

  // ---------------------------------------------------------------------
  // parsePrice
  // ---------------------------------------------------------------------

  /** `s` with every character satisfying `drop` removed (a global `replace` by ''). */
  function Without(s: string, drop: char -> bool): (r: string)
    ensures |r| <= |s|
    ensures forall i :: 0 <= i < |r| ==> !drop(r[i])
    ensures forall c :: c in r ==> c in s
  {
    if s == [] then []
    else
      var rest := Without(s[1..], drop);
      assert forall i :: 1 <= i < |s| ==> s[i] == s[1..][i - 1];
      if drop(s[0]) then rest else [s[0]] + rest
  }

  /** Nothing to drop: the string is kept whole. */
  lemma {:induction false} WithoutNothing(s: string, drop: char -> bool)
    requires forall i :: 0 <= i < |s| ==> !drop(s[i])
    ensures Without(s, drop) == s
  {
    if s != [] {
      WithoutNothing(s[1..], drop);
    }
  }

  predicate IsEuroOrSpace(c: char) {
    c == '€' || IsSpace(c)
  }

  predicate IsDot(c: char) {
    c == '.'
  }

  /** `s.replace(from, to)` with a one-character string pattern: only the first occurrence is replaced. */
  function ReplaceFirst(s: string, from: char, to: char): (r: string)
    ensures |r| == |s|
    ensures forall i :: 0 <= i < |s| ==> r[i] == s[i] || (s[i] == from && r[i] == to)
    ensures forall i :: 0 <= i < |s| && r[i] != s[i] ==> forall j :: 0 <= j < i ==> s[j] != from
    ensures from != to ==> forall i, j :: 0 <= i < j < |s| && r[i] != s[i] ==> r[j] == s[j]
    ensures (exists i :: 0 <= i < |s| && s[i] == from) ==> r != s || from == to
  {
    if s == [] then []
    else if s[0] == from then [to] + s[1..]
    else
      var rest := ReplaceFirst(s[1..], from, to);
      var r := [s[0]] + rest;
      assert forall i :: 1 <= i < |s| ==> r[i] == rest[i - 1] && s[i] == s[1..][i - 1];
      assert (exists i :: 0 <= i < |s| && s[i] == from) ==> exists i :: 0 <= i < |s| - 1 && s[1..][i] == from by {
        if exists i :: 0 <= i < |s| && s[i] == from {
          var i :| 0 <= i < |s| && s[i] == from;
          assert s[1..][i - 1] == from;
        }
      }
      r
  }

  /** The cleaning step of `parsePrice`: drop '€' and white space, drop every '.', then turn the first ',' into '.'. */
  function CleanPrice(s: string): (r: string)
  {
    ReplaceFirst(Without(Without(s, IsEuroOrSpace), IsDot), ',', '.')
  }

  /**
   * What the cleaning step guarantees: no '€', no white space, at most one
   * '.', and that '.' stands where the first ',' was.
   */
  lemma CleanPriceShape(s: string)
    ensures forall i :: 0 <= i < |CleanPrice(s)| ==> !IsEuroOrSpace(CleanPrice(s)[i])
    ensures forall i, j :: 0 <= i < j < |CleanPrice(s)| ==> !(CleanPrice(s)[i] == '.' && CleanPrice(s)[j] == '.')
    ensures forall i, j :: 0 <= j < i < |CleanPrice(s)| && CleanPrice(s)[i] == '.' ==> CleanPrice(s)[j] != ','
  {
    var a := Without(s, IsEuroOrSpace);
    var b := Without(a, IsDot);
    var r := ReplaceFirst(b, ',', '.');
    forall i | 0 <= i < |r| ensures !IsEuroOrSpace(r[i]) {
      assert b[i] in a;
    }
  }

  /**
   * `parsePrice(text)`: null for a falsy text; otherwise the cleaned text
   * read by `parseFloat`, null when it does not start with a number.
   */
  function ParsePrice(text: Option<string>): (r: Option<Decimal>)
    ensures r.Some? <==> Truthy(text) && StartsNumeral(Unsigned(TrimStart(CleanPrice(text.value))))
    ensures r.Some? ==> Canonical(r.value)
  {
    if !Truthy(text) then None else ParseFloat(CleanPrice(text.value))
  }

  lemma {:induction false} WithoutAppend(a: string, b: string, drop: char -> bool)
    ensures Without(a + b, drop) == Without(a, drop) + Without(b, drop)
  {
    if a != [] {
      assert (a + b)[1..] == a[1..] + b;
      WithoutAppend(a[1..], b, drop);
    } else {
      assert a + b == b;
    }
  }

  lemma CleanPriceExample()
    ensures CleanPrice("€ 7.500") == "7500"
  {
    PriceCleaned();
    NoComma("7500");
  }

  lemma PriceCleaned()
    ensures Without(Without("€ 7.500", IsEuroOrSpace), IsDot) == "7500"
  {
    PriceWithoutEuro();
    PriceWithoutDots();
  }

  /** Without a ',' in the text, the replacement leaves it as it is. */
  lemma NoComma(s: string)
    requires ',' !in s
    ensures ReplaceFirst(s, ',', '.') == s
  {
    var r := ReplaceFirst(s, ',', '.');
    assert forall i :: 0 <= i < |s| ==> r[i] == s[i];
  }

  lemma PriceWithoutEuro()
    ensures Without("€ 7.500", IsEuroOrSpace) == "7.500"
  {
    assert "€ 7.500"[1..] == " 7.500" && " 7.500"[1..] == "7.500";
    assert IsEuroOrSpace('€') && IsEuroOrSpace(' ');
    var t := "7.500";
    assert forall i :: 0 <= i < |t| ==> t[i] in {'7', '.', '5', '0'};
    WithoutNothing(t, IsEuroOrSpace);
  }

  lemma PriceWithoutDots()
    ensures Without("7.500", IsDot) == "7500"
  {
    assert "7.500"[1..] == ".500" && ".500"[1..] == "500";
    WithoutNothing("500", IsDot);
    assert Without(".500", IsDot) == "500";
    assert ['7'] + "500" == "7500";
  }

  /** "€ 7.500" is 7500, written canonically as 75e2. */
  lemma ParsePriceExample()
    ensures ParsePrice(Some("€ 7.500")) == Some(Decimal(75, 2))
  {
    CleanPriceExample();
    ParseFloatExample();
  }

  lemma ParseFloatExample()
    ensures ParseFloat("7500") == Some(Decimal(75, 2))
  {
    assert NatToString(7500) == "7500" by {
      assert NatToString(7500) == NatToString(750) + "0";
      assert NatToString(750) == NatToString(75) + "0";
      assert NatToString(75) == "75";
    }
    ParseFloatOfNatToString(7500);
    assert Normalize(7500, 0) == Decimal(75, 2) by {
      assert Normalize(75, 2) == Decimal(75, 2);
      assert Normalize(750, 1) == Decimal(75, 2);
    }
  }

  /** "1.234,50": the thousands dot goes, the decimal comma becomes a point, giving 1234.5 (12345e-1). */
  lemma ParsePriceDecimalComma()
    ensures ParsePrice(Some("1.234,50")) == Some(Decimal(12345, -1))
  {
    DecimalCommaCleaned();
    ParseFloatFraction();
  }

  lemma DecimalCommaCleaned()
    ensures CleanPrice("1.234,50") == "1234.50"
  {
    CommaKeepsEuroless();
    CommaWithoutDot();
    CommaToPoint();
  }

  lemma CommaKeepsEuroless()
    ensures Without("1.234,50", IsEuroOrSpace) == "1.234,50"
  {
    var t := "1.234,50";
    assert forall i :: 0 <= i < |t| ==> !IsEuroOrSpace(t[i]);
    WithoutNothing(t, IsEuroOrSpace);
  }

  lemma CommaWithoutDot()
    ensures Without("1.234,50", IsDot) == "1234,50"
  {
    var t := "234,50";
    assert forall i :: 0 <= i < |t| ==> !IsDot(t[i]);
    WithoutNothing(t, IsDot);
    assert "1.234,50"[1..] == ".234,50";
    assert ".234,50"[1..] == t;
    assert Without(".234,50", IsDot) == t;
    assert Without("1.234,50", IsDot) == ['1'] + t;
    ConsDigit();
  }

  lemma CommaToPoint()
    ensures ReplaceFirst("1234,50", ',', '.') == "1234.50"
  {
    PriceDigits();
    ReplaceAfterDigits('1', '2', '3', '4', "50");
  }

  /** Four characters other than ',' are kept, and the ',' after them becomes '.'. */
  lemma ReplaceAfterDigits(a: char, b: char, c: char, d: char, t: string)
    requires a != ',' && b != ',' && c != ',' && d != ','
    ensures ReplaceFirst([a] + ([b] + ([c] + ([d] + ([','] + t)))), ',', '.') == [a] + ([b] + ([c] + ([d] + (['.'] + t))))
  {
    assert ([','] + t)[1..] == t;
    ReplaceKeeps(d, [','] + t);
    ReplaceKeeps(c, [d] + ([','] + t));
    ReplaceKeeps(b, [c] + ([d] + ([','] + t)));
    ReplaceKeeps(a, [b] + ([c] + ([d] + ([','] + t))));
  }

  /** A first character other than ',' is kept, and the replacement goes on in the rest. */
  lemma ReplaceKeeps(c: char, t: string)
    requires c != ','
    ensures ReplaceFirst([c] + t, ',', '.') == [c] + ReplaceFirst(t, ',', '.')
  {
    assert ([c] + t)[1..] == t;
  }

  lemma PriceDigits()
    ensures "1234,50" == ['1'] + (['2'] + (['3'] + (['4'] + ([','] + "50"))))
    ensures "1234.50" == ['1'] + (['2'] + (['3'] + (['4'] + (['.'] + "50"))))
  {
  }

  lemma ConsDigit()
    ensures ['1'] + "234,50" == "1234,50" && ['1'] + "234.50" == "1234.50"
  {
  }

  lemma ParseFloatFraction()
    ensures ParseFloat("1234.50") == Some(Decimal(12345, -1))
  {
    PriceStartsTrimmed();
    assert Unsigned("1234.50") == "1234.50";
    ReadFraction();
  }

  lemma PriceStartsTrimmed()
    ensures TrimStart("1234.50") == "1234.50"
  {
    assert !IsSpace("1234.50"[0]);
  }

  lemma ReadFraction()
    ensures ReadUnsigned("1234.50", false) == Some(Decimal(12345, -1))
  {
    LeadingDigitsOfPrice();
    FractionParts();
    LeadingDigitsOfDigits("50");
    DigitsValueOfPrice();
    NormalizePrice();
  }

  lemma FractionParts()
    ensures "1234.50"[4..] == ".50" && ".50"[1..] == "50" && "50"[2..] == [] && "1234" + "50" == "123450"
  {
  }

  lemma NormalizePrice()
    ensures Normalize(123450, -2) == Decimal(12345, -1)
  {
    assert Normalize(12345, -1) == Decimal(12345, -1);
  }

  lemma LeadingDigitsOfPrice()
    ensures LeadingDigits("1234.50") == "1234"
  {
    assert !IsDigit('.') && ".50"[0] == '.';
    assert LeadingDigits(".50") == [];
    assert "4.50"[1..] == ".50" && LeadingDigits("4.50") == "4";
    assert "34.50"[1..] == "4.50" && LeadingDigits("34.50") == "34";
    assert "234.50"[1..] == "34.50" && LeadingDigits("234.50") == "234";
    assert "1234.50"[1..] == "234.50";
  }

  lemma DigitsValueOfPrice()
    ensures DigitsValue("123450") == 123450
  {
    assert "1"[..0] == [] && DigitsValue("1") == 1;
    assert "12"[..1] == "1" && DigitsValue("12") == 12;
    assert "123"[..2] == "12" && DigitsValue("123") == 123;
    assert "1234"[..3] == "123" && DigitsValue("1234") == 1234;
    assert "12345"[..4] == "1234" && DigitsValue("12345") == 12345;
    assert "123450"[..5] == "12345";
  }

  // ---------------------------------------------------------------------
  // parseDate (the loose date parser)
  // ---------------------------------------------------------------------

  /**
   * `parseDate(dateText)` at clock reading `now`: null for a falsy text;
   * "oggi" (any case) is now, else "ieri" is the same time one calendar day
   * earlier; any other text is returned trimmed.
   */
  function ParseDate(text: Option<string>, now: DateTime): (r: Option<Stamp>)
    requires ValidDate(now.date)
    ensures r.Some? <==> Truthy(text)
    ensures r.Some? && r.value.Iso? ==>
      var t := r.value.at;
      t.(date := now.date) == now && ValidDate(t.date)
      && (t.date == now.date || NextDay(t.date) == now.date)
    ensures r.Some? && r.value.Literal? ==>
      r.value.text == Trim(text.value)
      && !Contains(ToLower(text.value), "oggi") && !Contains(ToLower(text.value), "ieri")
    ensures Truthy(text) && Contains(ToLower(text.value), "oggi") ==> r == Some(Iso(now))
    ensures Truthy(text) && !Contains(ToLower(text.value), "oggi") && Contains(ToLower(text.value), "ieri") ==>
      r == Some(Iso(now.(date := PreviousDay(now.date))))
    ensures Truthy(text) && !Contains(ToLower(text.value), "oggi") && !Contains(ToLower(text.value), "ieri") ==>
      r.value.Literal?
  {
    if !Truthy(text) then None
    else if Contains(ToLower(text.value), "oggi") then Some(Iso(now))
    else if Contains(ToLower(text.value), "ieri") then Some(Iso(now.(date := PreviousDay(now.date))))
    else Some(Literal(Trim(text.value)))
  }

  // ---------------------------------------------------------------------
  // buildFullUrl
  // ---------------------------------------------------------------------

  /**
   * `buildFullUrl(href, baseUrl)`: null for a falsy href, the href itself
   * when it starts with "http"; any other href is resolved against the
   * base by `resolve` (the `URL` constructor, whose failure gives null).
   */
  function BuildFullUrl(href: Option<string>, baseUrl: string, resolve: (string, string) -> Option<string>): (r: Option<string>)
    ensures !Truthy(href) ==> r.None?
    ensures Truthy(href) && StartsWith(href.value, "http") ==> r == href
  {
    if !Truthy(href) then None
    else if StartsWith(href.value, "http") then href
    else resolve(href.value, baseUrl)
  }

  /** An absolute result is a fixed point: building it again, against any base, gives it back. */
  lemma BuildFullUrlIdempotent(href: Option<string>, baseUrl: string, baseUrl': string,
                               resolve: (string, string) -> Option<string>, resolve': (string, string) -> Option<string>)
    requires BuildFullUrl(href, baseUrl, resolve).Some?
    requires StartsWith(BuildFullUrl(href, baseUrl, resolve).value, "http")
    ensures BuildFullUrl(BuildFullUrl(href, baseUrl, resolve), baseUrl', resolve') == BuildFullUrl(href, baseUrl, resolve)
  {
  }

  // ---------------------------------------------------------------------
  // extractListingId
  // ---------------------------------------------------------------------

  /** `[a-zA-Z0-9-]`. */
  predicate IsIdChar(c: char) {
    IsDigit(c) || IsUpper(c) || ('a' <= c <= 'z') || c == '-'
  }

  /** The length of the longest run of `[a-zA-Z0-9-]` starting at `i`. */
  function IdRun(s: string, i: nat): (n: nat)
    requires i <= |s|
    ensures i + n <= |s|
    ensures forall k :: i <= k < i + n ==> IsIdChar(s[k])
    ensures i + n < |s| ==> !IsIdChar(s[i + n])
    decreases |s| - i
  {
    if i < |s| && IsIdChar(s[i]) then 1 + IdRun(s, i + 1) else 0
  }

  /** `/\/([a-zA-Z0-9-]+)\.htm/` matches at `i`: a '/', a non-empty run, then ".htm". */
  predicate IdMatchAt(s: string, i: nat) {
    i < |s| && s[i] == '/'
    && var n := IdRun(s, i + 1);
       n >= 1 && StartsWith(s[i + 1 + n..], ".htm")
  }

  /** The leftmost position at or after `from` where the pattern matches. */
  function FindIdMatch(s: string, from: nat): (r: Option<nat>)
    requires from <= |s|
    ensures r.Some? ==> from <= r.value < |s| && IdMatchAt(s, r.value)
    ensures forall k :: from <= k < (if r.Some? then r.value else |s|) ==> !IdMatchAt(s, k)
    decreases |s| - from
  {
    if from == |s| then None
    else if IdMatchAt(s, from) then Some(from)
    else FindIdMatch(s, from + 1)
  }

  /**
   * `extractListingId(url)`: the capture group of the leftmost match of
   * `/\/([a-zA-Z0-9-]+)\.htm/`, or null.
   */
  function ExtractListingId(url: Option<string>): (r: Option<string>)
    ensures r.Some? ==>
      Truthy(url) && r.value != [] && (forall k :: 0 <= k < |r.value| ==> IsIdChar(r.value[k]))
      && Contains(url.value, "/" + r.value + ".htm")
    ensures r.None? ==> !Truthy(url) || forall k :: 0 <= k < |url.value| ==> !IdMatchAt(url.value, k)
  {
    if !Truthy(url) then None
    else
      var s := url.value;
      match FindIdMatch(s, 0)
      case None => None
      case Some(i) =>
        var n := IdRun(s, i + 1);
        var id := s[i + 1..i + 1 + n];
        IdMatchInfix(s, i);
        Some(id)
  }

  /** Where the pattern matches, the '/', the run and ".htm" stand side by side in the text. */
  lemma IdMatchInfix(s: string, i: nat)
    requires IdMatchAt(s, i)
    ensures var n := IdRun(s, i + 1); IsInfixAt(s, "/" + s[i + 1..i + 1 + n] + ".htm", i)
  {
    var n := IdRun(s, i + 1);
    var j := i + 1 + n;
    assert s[j..][..4] == s[j..j + 4] == ".htm";
    assert s[i..j + 4] == s[i..i + 1] + s[i + 1..j] + s[j..j + 4];
    assert s[i..i + 1] == "/";
  }

  /** The id is recovered from a URL whose path ends in "/<id>.htm", when no '/' comes before that one. */
  lemma ExtractListingIdRoundTrip(prefix: string, id: string, suffix: string)
    requires '/' !in prefix
    requires id != [] && forall k :: 0 <= k < |id| ==> IsIdChar(id[k])
    ensures ExtractListingId(Some(prefix + "/" + id + ".htm" + suffix)) == Some(id)
  {
    var s := prefix + "/" + id + ".htm" + suffix;
    var i := |prefix|;
    UrlParts(s, prefix, id, suffix);
    NoSlashNoMatch(s, prefix);
    MatchAfterPrefix(s, prefix, id, suffix);
    FindIdMatchFirst(s, 0, i);
    ExtractIdAtMatch(s, i, id);
  }

  /** The leftmost match at `i` yields the run that follows its '/'. */
  lemma ExtractAtMatch(s: string, i: nat)
    requires FindIdMatch(s, 0) == Some(i)
    ensures ExtractListingId(Some(s)) == Some(s[i + 1..i + 1 + IdRun(s, i + 1)])
  {
    assert i < |s| && Truthy(Some(s));
  }

  /** The same, for a run already known to be `id`. */
  lemma ExtractIdAtMatch(s: string, i: nat, id: string)
    requires FindIdMatch(s, 0) == Some(i)
    requires IdRun(s, i + 1) == |id| && i + 1 + |id| <= |s| && s[i + 1..i + 1 + |id|] == id
    ensures ExtractListingId(Some(s)) == Some(id)
  {
    ExtractAtMatch(s, i);
  }

  /** Where the prefix and the id stand in such a URL. */
  lemma UrlParts(s: string, prefix: string, id: string, suffix: string)
    requires s == prefix + "/" + id + ".htm" + suffix
    ensures StartsWith(s, prefix)
    ensures s[|prefix| + 1..|prefix| + 1 + |id|] == id
  {
    assert s[..|prefix|] == prefix;
    assert s[|prefix| + 1..|prefix| + 1 + |id|] == id;
  }

  /** No match starts inside a prefix without '/'. */
  lemma NoSlashNoMatch(s: string, prefix: string)
    requires '/' !in prefix && StartsWith(s, prefix)
    ensures forall k :: 0 <= k < |prefix| ==> !IdMatchAt(s, k)
  {
    forall k | 0 <= k < |prefix| ensures !IdMatchAt(s, k) {
      assert s[k] == prefix[k];
    }
  }

  /** The pattern matches right after the prefix, and its run is exactly the id. */
  lemma MatchAfterPrefix(s: string, prefix: string, id: string, suffix: string)
    requires s == prefix + "/" + id + ".htm" + suffix
    requires id != [] && forall k :: 0 <= k < |id| ==> IsIdChar(id[k])
    ensures IdRun(s, |prefix| + 1) == |id|
    ensures IdMatchAt(s, |prefix|)
  {
    var i := |prefix|;
    assert s[i] == '/';
    assert s[i + 1..i + 1 + |id|] == id;
    assert s[i + 1 + |id|..] == ".htm" + suffix;
    assert s[i + 1 + |id|] == '.';
    IdRunOf(s, i + 1, id);
  }

  lemma {:induction false} IdRunOf(s: string, i: nat, id: string)
    requires i + |id| < |s| && s[i..i + |id|] == id && !IsIdChar(s[i + |id|])
    requires forall k :: 0 <= k < |id| ==> IsIdChar(id[k])
    ensures IdRun(s, i) == |id|
    decreases |id|
  {
    if id != [] {
      assert s[i] == id[0];
      assert s[i + 1..i + 1 + |id[1..]|] == id[1..];
      IdRunOf(s, i + 1, id[1..]);
    }
  }

  lemma {:induction false} FindIdMatchFirst(s: string, from: nat, i: nat)
    requires from <= i < |s| && IdMatchAt(s, i)
    requires forall k :: from <= k < i ==> !IdMatchAt(s, k)
    ensures FindIdMatch(s, from) == Some(i)
    decreases i - from
  {
    if from < i {
      FindIdMatchFirst(s, from + 1, i);
    }
  }

  // ---------------------------------------------------------------------
  // withRetry
  // ---------------------------------------------------------------------

  /** The outcome of one call of the retried function: a value, or a thrown error. */
  datatype Attempt<+T, +E> = Succeeded(value: T) | Failed(error: E)

  /** What `withRetry` settles to: the value, or the error it throws (`None` is `undefined`). */
  datatype Retried<+T, +E> = Returned(value: T) | Threw(error: Option<E>)

  function Pow2(k: nat): (p: nat)
    ensures p >= 1
  {
    if k == 0 then 1 else 2 * Pow2(k - 1)
  }

  /**
   * `withRetry(fn, maxRetries, initialDelay)`: call `fn` up to maxRetries
   * times; the k-th call (from 0) yields `fn(k)`. Returns the first value;
   * after a failed call that is not the last, sleeps initialDelay·2^k. The
   * out-parameters also report how many calls were made and the sleeps
   * requested, in order.
   */
  method WithRetry<T, E>(fn: nat -> Attempt<T, E>, maxRetries: int, initialDelay: int)
    returns (r: Retried<T, E>, calls: nat, delays: seq<int>)
    ensures calls <= (if maxRetries > 0 then maxRetries else 0)
    ensures forall k :: 0 <= k < calls - 1 ==> fn(k).Failed?
    ensures r.Returned? ==> calls >= 1 && fn(calls - 1) == Succeeded(r.value)
    ensures r.Threw? ==>
      calls == (if maxRetries > 0 then maxRetries else 0)
      && (calls == 0 ==> r.error == None)
      && (calls > 0 ==> fn(calls - 1).Failed? && r.error == Some(fn(calls - 1).error))
    ensures |delays| == (if calls == 0 then 0 else calls - 1)
    ensures forall k :: 0 <= k < |delays| ==> delays[k] == initialDelay * Pow2(k)
  {
    var lastError: Option<E> := None;
    delays := [];
    var attempt := 0;
    while attempt < maxRetries
      invariant 0 <= attempt <= (if maxRetries > 0 then maxRetries else 0)
      invariant forall k :: 0 <= k < attempt ==> fn(k).Failed?
      invariant attempt == 0 ==> lastError == None
      invariant attempt > 0 ==> lastError == Some(fn(attempt - 1).error)
      invariant |delays| == (if attempt > 0 && attempt == maxRetries then attempt - 1 else attempt)
      invariant forall k :: 0 <= k < |delays| ==> delays[k] == initialDelay * Pow2(k)
    {
      match fn(attempt)
      case Succeeded(v) =>
        return Returned(v), attempt + 1, delays;
      case Failed(e) =>
        lastError := Some(e);
        if attempt < maxRetries - 1 {
          delays := delays + [initialDelay * Pow2(attempt)];
        }
      attempt := attempt + 1;
    }
    r, calls := Threw(lastError), attempt;
  }

  function Sum(s: seq<int>): int {
    if s == [] then 0 else Sum(s[..|s| - 1]) + s[|s| - 1]
  }

  /** The back-off schedule sleeps initialDelay·(2^n − 1) in all over n sleeps. */
  lemma {:induction false} TotalBackoff(delays: seq<int>, initialDelay: int)
    requires forall k :: 0 <= k < |delays| ==> delays[k] == initialDelay * Pow2(k)
    ensures Sum(delays) == initialDelay * (Pow2(|delays|) - 1)
  {
    if delays != [] {
      var n := |delays| - 1;
      TotalBackoff(delays[..n], initialDelay);
      assert Pow2(n + 1) == 2 * Pow2(n);
    }
  }

  // ---------------------------------------------------------------------
  // validateListing
  // ---------------------------------------------------------------------

  /** A listing as the extractor hands it over: every field may be missing. */
  datatype RawListing = RawListing(
    marca: Option<string>, modello: Option<string>, anno: Option<int>, km: Option<int>,
    prezzo: Option<Decimal>, likes: Option<int>, citta: Option<string>,
    data_pubblicazione: Option<Stamp>, link_annuncio: Option<string>, tipo_veicolo: Option<string>,
    cilindrata: Option<int>, versione: Option<string>, descrizione: Option<string>,
    venditore: Option<string>)

  /** The canonical 14-field record `validateListing` returns, as stored in the table. */
  datatype Listing = Listing(
    marca: Option<string>, modello: Option<string>, anno: Option<int>, km: Option<int>,
    prezzo: Option<Decimal>, likes: int, citta: Option<string>,
    data_pubblicazione: Stamp, link_annuncio: Option<string>, tipo_veicolo: Option<string>,
    cilindrata: Option<int>, versione: Option<string>, descrizione: Option<string>,
    venditore: Option<string>)

  /** `s?.trim() || null`: the trimmed text, or null when nothing is left. */
  function CleanText(s: Option<string>): (r: Option<string>)
    ensures r.Some? ==> r.value != [] && IsTrimmed(r.value) && s.Some? && r.value == Trim(s.value)
    ensures r.None? <==> s.None? || AllSpace(s.value)
  {
    match s
    case None => None
    case Some(t) =>
      TrimEmptyIff(t);
      var u := Trim(t);
      if u == [] then None else Some(u)
  }

  /** `r` is what `raw?.trim() || null` leaves: null for a missing or blank text, else the text trimmed. */
  predicate TextFrom(raw: Option<string>, r: Option<string>) {
    (r.Some? <==> raw.Some? && !AllSpace(raw.value))
    && (r.Some? ==> r.value == Trim(raw.value))
  }

  /** `r` is what `raw || null` leaves of a number: null for a missing value or 0, else the value. */
  predicate NumberFrom(raw: Option<int>, r: Option<int>) {
    (r.Some? <==> raw.Some? && raw.value != 0)
    && (r.Some? ==> r == raw)
  }

  /** `n || null` on a number: 0 and a missing value become null. */
  function NonZero(n: Option<int>): (r: Option<int>)
    ensures r.Some? <==> n.Some? && n.value != 0
    ensures r.Some? ==> r == n
  {
    if n.Some? && n.value != 0 then n else None
  }

  function NonZeroDecimal(d: Option<Decimal>): (r: Option<Decimal>)
    ensures r.Some? <==> d.Some? && d.value.mantissa != 0
    ensures r.Some? ==> r == d
  {
    if d.Some? && d.value.mantissa != 0 then d else None
  }

  /** A publication date that is truthy: a `Date` string, or a non-empty text. */
  predicate TruthyStamp(s: Stamp) {
    s.Iso? || s.text != ""
  }

  /** The shape every validated listing has. */
  predicate IsValidated(l: Listing) {
    && (l.marca.Some? ==> l.marca.value != [] && IsTrimmed(l.marca.value))
    && (l.modello.Some? ==> l.modello.value != [] && IsTrimmed(l.modello.value))
    && (l.citta.Some? ==> l.citta.value != [] && IsTrimmed(l.citta.value))
    && (l.link_annuncio.Some? ==> l.link_annuncio.value != [] && IsTrimmed(l.link_annuncio.value))
    && (l.tipo_veicolo.Some? ==> l.tipo_veicolo.value != [] && IsTrimmed(l.tipo_veicolo.value))
    && (l.versione.Some? ==> l.versione.value != [] && IsTrimmed(l.versione.value))
    && (l.descrizione.Some? ==> l.descrizione.value != [] && IsTrimmed(l.descrizione.value))
    && (l.venditore.Some? ==> l.venditore.value != [] && IsTrimmed(l.venditore.value))
    && (l.anno.Some? ==> l.anno.value != 0)
    && (l.km.Some? ==> l.km.value != 0)
    && (l.cilindrata.Some? ==> l.cilindrata.value != 0)
    && (l.prezzo.Some? ==> l.prezzo.value.mantissa != 0)
    && TruthyStamp(l.data_pubblicazione)
  }

  /**
   * `validateListing(listing)` with the clock reading `now`: strings
   * trimmed (empty becomes null), falsy numbers null, likes defaulting to
   * 0, the publication date defaulting to now.
   */
  function ValidateListing(raw: RawListing, now: DateTime): (l: Listing)
    ensures IsValidated(l)
    ensures TextFrom(raw.marca, l.marca) && TextFrom(raw.modello, l.modello) && TextFrom(raw.citta, l.citta)
    ensures TextFrom(raw.link_annuncio, l.link_annuncio) && TextFrom(raw.tipo_veicolo, l.tipo_veicolo)
    ensures TextFrom(raw.versione, l.versione) && TextFrom(raw.descrizione, l.descrizione)
    ensures TextFrom(raw.venditore, l.venditore)
    ensures NumberFrom(raw.anno, l.anno) && NumberFrom(raw.km, l.km) && NumberFrom(raw.cilindrata, l.cilindrata)
    ensures l.prezzo.Some? <==> raw.prezzo.Some? && raw.prezzo.value.mantissa != 0
    ensures l.prezzo.Some? ==> l.prezzo == raw.prezzo
    ensures l.likes == (if raw.likes.Some? then raw.likes.value else 0)
    ensures raw.data_pubblicazione.Some? && TruthyStamp(raw.data_pubblicazione.value)
            ==> l.data_pubblicazione == raw.data_pubblicazione.value
    ensures !(raw.data_pubblicazione.Some? && TruthyStamp(raw.data_pubblicazione.value))
            ==> l.data_pubblicazione == Iso(now)
  {
    Listing(
      marca := CleanText(raw.marca),
      modello := CleanText(raw.modello),
      anno := NonZero(raw.anno),
      km := NonZero(raw.km),
      prezzo := NonZeroDecimal(raw.prezzo),
      likes := if raw.likes.Some? && raw.likes.value != 0 then raw.likes.value else 0,
      citta := CleanText(raw.citta),
      data_pubblicazione :=
        if raw.data_pubblicazione.Some? && TruthyStamp(raw.data_pubblicazione.value)
        then raw.data_pubblicazione.value else Iso(now),
      link_annuncio := CleanText(raw.link_annuncio),
      tipo_veicolo := CleanText(raw.tipo_veicolo),
      cilindrata := NonZero(raw.cilindrata),
      versione := CleanText(raw.versione),
      descrizione := CleanText(raw.descrizione),
      venditore := CleanText(raw.venditore))
  }

  /** A stored listing read back as a raw one: every field present as it is. */
  function AsRaw(l: Listing): RawListing {
    RawListing(l.marca, l.modello, l.anno, l.km, l.prezzo, Some(l.likes), l.citta,
               Some(l.data_pubblicazione), l.link_annuncio, l.tipo_veicolo, l.cilindrata,
               l.versione, l.descrizione, l.venditore)
  }

  /** Validated listings are exactly the fixed points of validation, whatever the clock says. */
  lemma ValidateFixedPoint(l: Listing, now: DateTime)
    ensures IsValidated(l) <==> ValidateListing(AsRaw(l), now) == l
  {
    if IsValidated(l) {
      ValidateKeepsValidated(l, now);
    }
  }

  lemma ValidateKeepsValidated(l: Listing, now: DateTime)
    requires IsValidated(l)
    ensures ValidateListing(AsRaw(l), now) == l
  {
    CleanTextFieldsFixed(l);
  }

  /** Every text field of a validated listing survives cleaning unchanged. */
  lemma CleanTextFieldsFixed(l: Listing)
    requires IsValidated(l)
    ensures CleanText(l.marca) == l.marca && CleanText(l.modello) == l.modello && CleanText(l.citta) == l.citta
    ensures CleanText(l.link_annuncio) == l.link_annuncio && CleanText(l.tipo_veicolo) == l.tipo_veicolo
    ensures CleanText(l.versione) == l.versione && CleanText(l.descrizione) == l.descrizione
    ensures CleanText(l.venditore) == l.venditore
  {
    CleanTextFixed(l.marca);
    CleanTextFixed(l.modello);
    CleanTextFixed(l.citta);
    CleanTextFixed(l.link_annuncio);
    CleanTextFixed(l.tipo_veicolo);
    CleanTextFixed(l.versione);
    CleanTextFixed(l.descrizione);
    CleanTextFixed(l.venditore);
  }

  lemma CleanTextFixed(s: Option<string>)
    requires s.Some? ==> s.value != [] && IsTrimmed(s.value)
    ensures CleanText(s) == s
  {
    if s.Some? {
      TrimTrimmed(s.value);
    }
  }

  /** Validating twice gives the same listing as validating once. */
  lemma ValidateIdempotent(raw: RawListing, now: DateTime, later: DateTime)
    ensures ValidateListing(AsRaw(ValidateListing(raw, now)), later) == ValidateListing(raw, now)
  {
    ValidateFixedPoint(ValidateListing(raw, now), later);
  }

  // ---------------------------------------------------------------------
  // truncate
  // ---------------------------------------------------------------------

  /**
   * `truncate(text, maxLength)`: 'N/A' for a falsy text, the text when it
   * fits, otherwise its first maxLength characters (none when maxLength is
   * negative, as `substring` clamps) followed by "...".
   */
  function Truncate(text: Option<string>, maxLength: int): (r: string)
    ensures !Truthy(text) ==> r == "N/A"
    ensures Truthy(text) && |text.value| <= maxLength ==> r == text.value
    ensures Truthy(text) && |text.value| > maxLength ==>
      var keep := if maxLength < 0 then 0 else maxLength;
      |r| == keep + 3 && r[..keep] == text.value[..keep] && r[keep..] == "..."
  {
    if !Truthy(text) then "N/A"
    else if |text.value| <= maxLength then text.value
    else text.value[..if maxLength < 0 then 0 else maxLength] + "..."
  }

  /** A truncated text never grows past maxLength + 3, so truncating it again with that bound keeps it. */
  lemma TruncateStable(text: Option<string>, maxLength: nat)
    ensures Truncate(Some(Truncate(text, maxLength)), maxLength + 3) == Truncate(text, maxLength)
  {
  }
}
