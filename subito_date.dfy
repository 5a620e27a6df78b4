/**
 * The strict Italian date parser of the scraper, `parseSubitoDate`: it
 * reads "oggi … HH:MM", "ieri … HH:MM" and "D mon alle HH:MM" and nothing
 * else. It is a different function from the loose `parseDate` of the
 * utilities, and both are modelled as written.
 */
module SubitoDate {
  import opened Text
  import opened Values
  import opened Calendar
  import opened Utils

  /** The month table: three-letter Italian abbreviations to two-digit month numbers. */
  const Months: map<string, string> := map[
    "gen" := "01", "feb" := "02", "mar" := "03", "apr" := "04", "mag" := "05", "giu" := "06",
    "lug" := "07", "ago" := "08", "set" := "09", "ott" := "10", "nov" := "11", "dic" := "12"]

  /** The abbreviations in calendar order. */
  const MonthAbbrs: seq<string> := ["gen", "feb", "mar", "apr", "mag", "giu", "lug", "ago", "set", "ott", "nov", "dic"]

  /** `n` written with exactly two digits, as `String(n).padStart(2, '0')` for n < 100. */
  function TwoDigits(n: nat): (r: string)
    requires n < 100
    ensures |r| == 2 && AllDigits(r)
    ensures DigitValue(r[0]) * 10 + DigitValue(r[1]) == n
  {
    [DigitChar(n / 10), DigitChar(n % 10)]
  }

  /** Two-digit strings are written by one number only. */
  lemma TwoDigitsInjective(m: nat, n: nat)
    requires m < 100 && n < 100 && TwoDigits(m) == TwoDigits(n)
    ensures m == n
  {
  }

  /** `months[monthAbbr]`: case-sensitive, so only the twelve lower-case keys are found. */
  function MonthNumber(abbr: string): (r: Option<string>)
    ensures r.Some? <==> abbr in Months
  {
    if abbr in Months then Some(Months[abbr]) else None
  }

  /**
   * The k-th abbreviation maps to month number k + 1, and these are the
   * only keys: the table is the calendar.
   */
  lemma MonthTableIsCalendar()
    ensures |MonthAbbrs| == 12
    ensures forall k :: 0 <= k < 12 ==> MonthNumber(MonthAbbrs[k]) == Some(TwoDigits(k + 1))
    ensures forall a :: a in Months ==> a in MonthAbbrs
  {
    MonthKeysListed();
    forall k | 0 <= k < 12
      ensures MonthNumber(MonthAbbrs[k]) == Some(TwoDigits(k + 1))
    {
      if k < 6 { EarlyMonth(k); } else { LateMonth(k); }
    }
  }

  /** January to June are written "01" to "06". */
  lemma EarlyMonth(k: nat)
    requires k < 6
    ensures MonthNumber(MonthAbbrs[k]) == Some(TwoDigits(k + 1))
  {
    assert TwoDigits(k + 1) == ['0', DigitChar(k + 1)];
  }

  /** July to December are written "07" to "12". */
  lemma LateMonth(k: nat)
    requires 6 <= k < 12
    ensures MonthNumber(MonthAbbrs[k]) == Some(TwoDigits(k + 1))
  {
    if k < 9 {
      assert TwoDigits(k + 1) == ['0', DigitChar(k + 1)];
    } else {
      assert TwoDigits(k + 1) == ['1', DigitChar(k - 9)];
    }
  }

  /** The keys of the table are the twelve abbreviations. */
  lemma MonthKeysListed()
    ensures forall a :: a in Months ==> a in MonthAbbrs
  {
  }

  /** The k-th abbreviation is three word characters, and a key of the table with month number k + 1. */
  lemma MonthAbbr(k: nat)
    requires k < 12
    ensures |MonthAbbrs[k]| == 3 && forall c :: 0 <= c < 3 ==> IsWordChar(MonthAbbrs[k][c])
    ensures MonthAbbrs[k] in Months && Months[MonthAbbrs[k]] == TwoDigits(k + 1)
  {
    MonthTableIsCalendar();
    MonthKeysLower();
    assert MonthAbbrs[k] in Months;
  }

  /** Every key of the table is three lower-case letters. */
  lemma MonthKeysLower()
    ensures forall a :: a in Months ==> |a| == 3 && forall j :: 0 <= j < 3 ==> 'a' <= a[j] <= 'z'
  {
  }

  /** Different abbreviations give different month numbers. */
  lemma MonthNumberInjective(a: string, b: string)
    requires MonthNumber(a).Some? && MonthNumber(a) == MonthNumber(b)
    ensures a == b
  {
  }

  /** Every key is three lower-case letters, so an abbreviation with a capital letter, such as "Gen", is not found. */
  lemma MonthNumberCaseSensitive(abbr: string)
    requires exists k :: 0 <= k < |abbr| && IsUpper(abbr[k])
    ensures MonthNumber(abbr) == None
  {
    var k :| 0 <= k < |abbr| && IsUpper(abbr[k]);
    if abbr in Months {
      MonthKeysLower();
      assert false;
    }
  }

  // ---------------------------------------------------------------------
  // The regular expressions
  // ---------------------------------------------------------------------

  /** `\d{2}:\d{2}` matches at `i`. */
  predicate IsTimeAt(s: string, i: nat) {
    i + 5 <= |s| && IsDigit(s[i]) && IsDigit(s[i + 1]) && s[i + 2] == ':'
    && IsDigit(s[i + 3]) && IsDigit(s[i + 4])
  }

  /** The hours and minutes of a time at `i`, as `parseInt` reads each pair of digits. */
  function TimeHour(s: string, i: nat): (h: nat)
    requires IsTimeAt(s, i)
    ensures h < 100
  {
    DigitValue(s[i]) * 10 + DigitValue(s[i + 1])
  }

  function TimeMinute(s: string, i: nat): (m: nat)
    requires IsTimeAt(s, i)
    ensures m < 100
  {
    DigitValue(s[i + 3]) * 10 + DigitValue(s[i + 4])
  }

  /** The leftmost position at or after `from` where `\d{2}:\d{2}` matches. */
  function FindTime(s: string, from: nat): (r: Option<nat>)
    requires from <= |s|
    ensures r.Some? ==> from <= r.value && IsTimeAt(s, r.value)
    ensures forall k :: from <= k < (if r.Some? then r.value else |s|) ==> !IsTimeAt(s, k)
    decreases |s| - from
  {
    if from == |s| then None
    else if IsTimeAt(s, from) then Some(from)
    else FindTime(s, from + 1)
  }

  /** `s` holds a time anywhere. */
  predicate HasTime(s: string) {
    exists i: nat :: i < |s| && IsTimeAt(s, i)
  }

  /** The part of the third form after the day and its space: `(\w{3}) (?:all'|alle) (\d{2}:\d{2})` at `j`. */
  predicate MonthAndTimeAt(s: string, j: nat) {
    j + 14 <= |s|
    && IsWordChar(s[j]) && IsWordChar(s[j + 1]) && IsWordChar(s[j + 2]) && s[j + 3] == ' '
    && (s[j + 4..j + 8] == "all'" || s[j + 4..j + 8] == "alle") && s[j + 8] == ' '
    && IsTimeAt(s, j + 9)
  }

  /** The third form with a day group of `len` digits matches at `i`. */
  predicate DayMatchAt(s: string, i: nat, len: nat) {
    i + len < |s| && AllDigits(s[i..i + len]) && s[i + len] == ' ' && MonthAndTimeAt(s, i + len + 1)
  }

  /**
   * The length of the day group when `(\d{1,2}) (\w{3}) (?:all'|alle) (\d{2}:\d{2})`
   * matches at `i`, 0 when it does not. The quantifier is greedy, so two
   * digits are tried before one.
   */
  function DayLengthAt(s: string, i: nat): (n: nat)
    ensures n <= 2
    ensures n > 0 ==> DayMatchAt(s, i, n)
    ensures n < 2 ==> !DayMatchAt(s, i, 2)
    ensures n == 0 ==> !DayMatchAt(s, i, 1)
  {
    assert DayMatchAt(s, i, 2) ==> IsDigit(s[i]) && IsDigit(s[i + 1]) by {
      if DayMatchAt(s, i, 2) { assert s[i..i + 2][0] == s[i] && s[i..i + 2][1] == s[i + 1]; }
    }
    assert DayMatchAt(s, i, 1) ==> IsDigit(s[i]) by {
      if DayMatchAt(s, i, 1) { assert s[i..i + 1][0] == s[i]; }
    }
    if i + 2 < |s| && IsDigit(s[i]) && IsDigit(s[i + 1]) && s[i + 2] == ' ' && MonthAndTimeAt(s, i + 3) then 2
    else if i + 1 < |s| && IsDigit(s[i]) && s[i + 1] == ' ' && MonthAndTimeAt(s, i + 2) then 1
    else 0
  }

  /** The leftmost position at or after `from` where the third form matches. */
  function FindDayForm(s: string, from: nat): (r: Option<nat>)
    requires from <= |s|
    ensures r.Some? ==> from <= r.value < |s| && DayLengthAt(s, r.value) > 0
    ensures forall k :: from <= k < (if r.Some? then r.value else |s|) ==> DayLengthAt(s, k) == 0
    decreases |s| - from
  {
    if from == |s| then None
    else if DayLengthAt(s, from) > 0 then Some(from)
    else FindDayForm(s, from + 1)
  }

  /** `day.padStart(2, '0')` for a day group of one or two digits. */
  function PadDay(day: string): (r: string)
    requires 1 <= |day| <= 2
    ensures |r| == 2 && r[|r| - |day|..] == day
    ensures forall k :: 0 <= k < 2 - |day| ==> r[k] == '0'
  {
    if |day| == 1 then "0" + day else day
  }

  // ---------------------------------------------------------------------
  // parseSubitoDate
  // ---------------------------------------------------------------------

  /** A month number from the table, a two-digit day and an HH:MM time. */
  predicate DateTimeParts(month: string, day: string, time: string) {
    month in Months.Values && |day| == 2 && AllDigits(day) && |time| == 5 && IsTimeAt(time, 0)
  }

  /** The ISO 8601 local date-time text `YYYY-MM-DDTHH:MM:00` of the third form. */
  function LocalDateTimeText(year: int, month: string, day: string, time: string): string {
    IntToString(year) + "-" + month + "-" + day + "T" + time + ":00"
  }

  /**
   * `parseSubitoDate(input)` with the clock reading `now`. A text holding
   * "oggi" (any case) is today at its first HH:MM; else one holding "ieri"
   * is the day before at its first HH:MM; either without an HH:MM is null.
   * Any other text must hold "D mon alle HH:MM" with a known month, and
   * gives the local date-time text in now's year.
   */
  function ParseSubitoDate(input: string, now: DateTime): (r: Option<Stamp>)
    requires ValidDate(now.date)
    ensures Contains(ToLower(input), "oggi") || Contains(ToLower(input), "ieri") ==>
      (r.Some? <==> HasTime(input)) && (r.Some? ==> r.value.Iso?)
    ensures r.Some? && r.value.Iso? ==>
      var t := r.value.at;
      t.second == 0 && t.millis == 0 && t.hour < 100 && t.minute < 100
      && (Contains(ToLower(input), "oggi") ==> t.date == now.date)
      && (!Contains(ToLower(input), "oggi") ==> t.date == PreviousDay(now.date))
    ensures r.Some? && r.value.Literal? ==>
      !Contains(ToLower(input), "oggi") && !Contains(ToLower(input), "ieri")
    ensures r.Some? && r.value.Iso? ==>
      Contains(ToLower(input), "oggi") || Contains(ToLower(input), "ieri")
  {
    if Contains(ToLower(input), "oggi") then AtFirstTime(input, now.date)
    else if Contains(ToLower(input), "ieri") then AtFirstTime(input, PreviousDay(now.date))
    else DayForm(input, now.date.year)
  }

  /** `date` at the first HH:MM of the text, seconds and milliseconds zero; null without one. */
  function AtFirstTime(input: string, date: Date): (r: Option<Stamp>)
    ensures r.Some? <==> HasTime(input)
    ensures r.Some? ==>
      r.value.Iso? && r.value.at.date == date
      && r.value.at.second == 0 && r.value.at.millis == 0 && r.value.at.hour < 100 && r.value.at.minute < 100
  {
    match FindTime(input, 0)
    case None => None
    case Some(i) => Some(Iso(DateTime(date, TimeHour(input, i), TimeMinute(input, i), 0, 0)))
  }

  /** The third form: the first "D mon alle HH:MM" of the text, as local date-time text in `year`. */
  function DayForm(input: string, year: int): (r: Option<Stamp>)
    ensures r.Some? ==> r.value.Literal?
  {
    match FindDayForm(input, 0)
    case None => None
    case Some(i) => DayFormAt(input, i, year)
  }

  /** The third form matched at `i`: null when the month is unknown, else the local date-time text. */
  function DayFormAt(input: string, i: nat, year: int): (r: Option<Stamp>)
    requires DayLengthAt(input, i) > 0
    ensures r.Some? ==> r.value.Literal?
  {
    var n := DayLengthAt(input, i);
    var j := i + n + 1;
    var month := MonthNumber(input[j..j + 3]);
    if month.None? then None
    else Some(Literal(LocalDateTimeText(year, month.value, PadDay(input[i..i + n]), input[j + 9..j + 14])))
  }

  /** "oggi" with a time: today at the first HH:MM of the text, seconds and milliseconds zero. */
  lemma SubitoToday(input: string, now: DateTime, i: nat)
    requires ValidDate(now.date)
    requires Contains(ToLower(input), "oggi")
    requires IsTimeAt(input, i) && forall k: nat :: k < i ==> !IsTimeAt(input, k)
    ensures ParseSubitoDate(input, now) == Some(Iso(DateTime(now.date, TimeHour(input, i), TimeMinute(input, i), 0, 0)))
  {
    FindTimeLeftmost(input, 0, i);
  }

  /** "ieri" (and no "oggi") with a time: the previous calendar day at the first HH:MM. */
  lemma SubitoYesterday(input: string, now: DateTime, i: nat)
    requires ValidDate(now.date)
    requires !Contains(ToLower(input), "oggi") && Contains(ToLower(input), "ieri")
    requires IsTimeAt(input, i) && forall k: nat :: k < i ==> !IsTimeAt(input, k)
    ensures ParseSubitoDate(input, now)
            == Some(Iso(DateTime(PreviousDay(now.date), TimeHour(input, i), TimeMinute(input, i), 0, 0)))
  {
    FindTimeLeftmost(input, 0, i);
  }

  lemma {:induction false} FindTimeLeftmost(s: string, from: nat, i: nat)
    requires from <= i && IsTimeAt(s, i)
    requires forall k: nat :: from <= k < i ==> !IsTimeAt(s, k)
    ensures FindTime(s, from) == Some(i)
    decreases i - from
  {
    if from < i {
      FindTimeLeftmost(s, from + 1, i);
    }
  }

  /**
   * The day form, read back: when the first day form of a text is
   * "D mon alle HH:MM" or "D mon all' HH:MM" with a table month, whatever
   * comes before or after it, the day, month and time written there come
   * out in ISO order.
   */
  lemma SubitoDayForm(prefix: string, suffix: string, input: string, day: nat, k: nat, conn: string,
                      hour: nat, minute: nat, now: DateTime)
    requires ValidDate(now.date)
    requires 1 <= day < 100 && k < 12 && hour < 100 && minute < 100
    requires conn == "alle" || conn == "all'"
    requires input == prefix + DayFormText(NatToString(day), MonthAbbrs[k], conn, TwoDigits(hour) + ":" + TwoDigits(minute)) + suffix
    requires forall p: nat :: p < |prefix| ==> DayLengthAt(input, p) == 0
    requires !Contains(ToLower(input), "oggi") && !Contains(ToLower(input), "ieri")
    ensures ParseSubitoDate(input, now)
            == Some(Literal(LocalDateTimeText(now.date.year, TwoDigits(k + 1), TwoDigits(day),
                                              TwoDigits(hour) + ":" + TwoDigits(minute))))
  {
    MonthAbbr(k);
    DayNumeral(day);
    TimeText(hour, minute);
    DayFormIn(prefix, NatToString(day), MonthAbbrs[k], conn, TwoDigits(hour) + ":" + TwoDigits(minute), suffix, input, now.date.year);
  }

  /** The text `d + " " + abbr + " " + conn + " " + time` of a day form. */
  function DayFormText(d: string, abbr: string, conn: string, time: string): (r: string)
    ensures |r| == |d| + |abbr| + |conn| + |time| + 3
  {
    d + " " + abbr + " " + conn + " " + time
  }

  /** `HH:MM` written from two numbers below 100 is a time. */
  lemma TimeText(hour: nat, minute: nat)
    requires hour < 100 && minute < 100
    ensures |TwoDigits(hour) + ":" + TwoDigits(minute)| == 5
    ensures IsTimeAt(TwoDigits(hour) + ":" + TwoDigits(minute), 0)
  {
  }

  /** A day form with no earlier match is the one the third form reads. */
  lemma DayFormIn(prefix: string, d: string, abbr: string, conn: string, time: string, suffix: string,
                  input: string, year: int)
    requires 1 <= |d| <= 2 && AllDigits(d)
    requires |abbr| == 3 && forall c :: 0 <= c < 3 ==> IsWordChar(abbr[c])
    requires conn == "alle" || conn == "all'"
    requires |time| == 5 && IsTimeAt(time, 0)
    requires input == prefix + DayFormText(d, abbr, conn, time) + suffix
    requires forall p: nat :: p < |prefix| ==> DayLengthAt(input, p) == 0
    ensures DayForm(input, year)
            == if abbr in Months then Some(Literal(LocalDateTimeText(year, Months[abbr], PadDay(d), time))) else None
  {
    var form := DayFormText(d, abbr, conn, time);
    assert input[|prefix|..|prefix| + |form|] == form;
    DayFormMatchesAt(input, |prefix|, d, abbr, conn, time);
    DayFormFound(input, |prefix|, d, abbr, time, year);
  }

  /** The third form read at its leftmost match, from the day, month and time found there. */
  lemma DayFormFound(input: string, i: nat, d: string, abbr: string, time: string, year: int)
    requires 1 <= |d| <= 2 && i < |input| && DayLengthAt(input, i) == |d|
    requires forall p: nat :: p < i ==> DayLengthAt(input, p) == 0
    requires var j := i + |d| + 1; input[j..j + 3] == abbr && input[j + 9..j + 14] == time && input[i..i + |d|] == d
    ensures DayForm(input, year)
            == if abbr in Months then Some(Literal(LocalDateTimeText(year, Months[abbr], PadDay(d), time))) else None
  {
    FindDayFormLeftmost(input, 0, i);
  }

  /** The numeral of a day below 100 has one or two digits and pads to its two-digit form. */
  lemma DayNumeral(day: nat)
    requires 1 <= day < 100
    ensures 1 <= |NatToString(day)| <= 2
    ensures PadDay(NatToString(day)) == TwoDigits(day)
  {
    if day >= 10 {
      assert NatToString(day) == NatToString(day / 10) + [DigitChar(day % 10)];
    }
  }

  /** The pieces of a day form's text, by position. */
  lemma DayFormParts(d: string, abbr: string, conn: string, time: string)
    requires |abbr| == 3 && |conn| == 4 && |time| == 5
    ensures var form := DayFormText(d, abbr, conn, time); var m := |d| + 1;
      && form[..|d|] == d && form[|d|] == ' '
      && form[m..m + 3] == abbr && form[m + 3] == ' '
      && form[m + 4..m + 8] == conn && form[m + 8] == ' '
      && form[m + 9..] == time
  {
    var form := DayFormText(d, abbr, conn, time);
    var m := |d| + 1;
    assert form == (d + " " + abbr + " ") + conn + (" " + time);
    assert form == d + " " + (abbr + " " + conn + " " + time);
  }

  /** A day form written at `i` matches there, with the whole numeral as day. */
  lemma DayFormMatchesAt(input: string, i: nat, d: string, abbr: string, conn: string, time: string)
    requires 1 <= |d| <= 2 && AllDigits(d)
    requires |abbr| == 3 && forall c :: 0 <= c < 3 ==> IsWordChar(abbr[c])
    requires conn == "alle" || conn == "all'"
    requires |time| == 5 && IsTimeAt(time, 0)
    requires i + |DayFormText(d, abbr, conn, time)| <= |input|
    requires input[i..i + |DayFormText(d, abbr, conn, time)|] == DayFormText(d, abbr, conn, time)
    ensures i < |input| && DayLengthAt(input, i) == |d|
    ensures var j := i + |d| + 1;
      input[j..j + 3] == abbr && input[j + 9..j + 14] == time && input[i..i + |d|] == d
  {
    var w := DayFormText(d, abbr, conn, time);
    DayFormParts(d, abbr, conn, time);
    var m := |d| + 1;
    var j := i + m;
    InnerSlice(input, i, |w|, 0, |d|);
    InnerSlice(input, i, |w|, m, m + 3);
    InnerSlice(input, i, |w|, m + 4, m + 8);
    InnerSlice(input, i, |w|, m + 9, |w|);
    assert input[i + |d|] == w[|d|];
    assert input[j + 3] == w[m + 3];
    assert input[j + 8] == w[m + 8];
    MonthAndTimeOf(input, j, abbr, conn, time);
    assert DayMatchAt(input, i, |d|);
  }

  /** The month, connector and time of a day form, written at `j`, match there. */
  lemma MonthAndTimeOf(s: string, j: nat, abbr: string, conn: string, time: string)
    requires |abbr| == 3 && forall c :: 0 <= c < 3 ==> IsWordChar(abbr[c])
    requires conn == "alle" || conn == "all'"
    requires |time| == 5 && IsTimeAt(time, 0)
    requires j + 14 <= |s| && s[j..j + 3] == abbr && s[j + 3] == ' '
    requires s[j + 4..j + 8] == conn && s[j + 8] == ' ' && s[j + 9..j + 14] == time
    ensures MonthAndTimeAt(s, j)
  {
    assert s[j] == abbr[0] && s[j + 1] == abbr[1] && s[j + 2] == abbr[2];
    assert s[j + 9] == time[0] && s[j + 10] == time[1] && s[j + 11] == time[2];
    assert s[j + 12] == time[3] && s[j + 13] == time[4];
  }

  /** A slice of a slice is a slice of the whole. */
  lemma InnerSlice(s: string, i: nat, n: nat, a: nat, b: nat)
    requires i + n <= |s| && a <= b <= n
    ensures s[i + a..i + b] == s[i..i + n][a..b]
  {
    var x, y := s[i + a..i + b], s[i..i + n][a..b];
    forall k | 0 <= k < |x| ensures x[k] == y[k] {
      assert x[k] == s[i + a + k];
    }
  }

  /** Without "oggi" or "ieri" and with no day form, the text is rejected. */
  lemma SubitoNoForm(input: string, now: DateTime)
    requires ValidDate(now.date)
    requires !Contains(ToLower(input), "oggi") && !Contains(ToLower(input), "ieri")
    requires forall k: nat :: DayLengthAt(input, k) == 0
    ensures ParseSubitoDate(input, now) == None
  {
  }

  /** A day form whose month abbreviation is not in the table is rejected. */
  lemma SubitoUnknownMonth(input: string, now: DateTime, i: nat)
    requires ValidDate(now.date)
    requires !Contains(ToLower(input), "oggi") && !Contains(ToLower(input), "ieri")
    requires i < |input| && DayLengthAt(input, i) > 0 && forall k: nat :: k < i ==> DayLengthAt(input, k) == 0
    requires var j := i + DayLengthAt(input, i) + 1; input[j..j + 3] !in Months
    ensures ParseSubitoDate(input, now) == None
  {
    FindDayFormLeftmost(input, 0, i);
  }

  lemma {:induction false} FindDayFormLeftmost(s: string, from: nat, i: nat)
    requires from <= i < |s| && DayLengthAt(s, i) > 0
    requires forall k: nat :: from <= k < i ==> DayLengthAt(s, k) == 0
    ensures FindDayForm(s, from) == Some(i)
    decreases i - from
  {
    if from < i {
      FindDayFormLeftmost(s, from + 1, i);
    }
  }

  /**
   * Every text result of the third form is `YYYY-MM-DDTHH:MM:00`: now's
   * year, a month number from the table, a two-digit day and a time.
   */
  lemma SubitoLiteralShape(input: string, now: DateTime)
    requires ValidDate(now.date)
    requires ParseSubitoDate(input, now).Some? && ParseSubitoDate(input, now).value.Literal?
    ensures exists month: string, day: string, time: string ::
      DateTimeParts(month, day, time) && ParseSubitoDate(input, now).value.text == LocalDateTimeText(now.date.year, month, day, time)
  {
    DayFormShape(input, now.date.year);
  }

  lemma DayFormShape(input: string, year: int)
    requires DayForm(input, year).Some?
    ensures exists month: string, day: string, time: string ::
      DateTimeParts(month, day, time) && DayForm(input, year).value.text == LocalDateTimeText(year, month, day, time)
  {
    DayFormAtShape(input, FindDayForm(input, 0).value, year);
  }

  lemma DayFormAtShape(input: string, i: nat, year: int)
    requires DayLengthAt(input, i) > 0 && DayFormAt(input, i, year).Some?
    ensures exists month: string, day: string, time: string ::
      DateTimeParts(month, day, time) && DayFormAt(input, i, year).value.text == LocalDateTimeText(year, month, day, time)
  {
    var n := DayLengthAt(input, i);
    var j := i + n + 1;
    var abbr := input[j..j + 3];
    assert MonthNumber(abbr).Some?;
    var month := Months[abbr];
    assert month in Months.Values;
    var day := PadDay(input[i..i + n]);
    var time := input[j + 9..j + 14];
    TimeSlice(input, j + 9);
    PadDayDigits(input[i..i + n]);
    assert DateTimeParts(month, day, time);
    assert DayFormAt(input, i, year).value.text == LocalDateTimeText(year, month, day, time);
  }

  lemma TimeSlice(s: string, p: nat)
    requires IsTimeAt(s, p)
    ensures |s[p..p + 5]| == 5 && IsTimeAt(s[p..p + 5], 0)
  {
    var t := s[p..p + 5];
    assert t[0] == s[p] && t[1] == s[p + 1] && t[2] == s[p + 2] && t[3] == s[p + 3] && t[4] == s[p + 4];
  }

  lemma PadDayDigits(d: string)
    requires 1 <= |d| <= 2 && AllDigits(d)
    ensures AllDigits(PadDay(d))
  {
    if |d| == 1 {
      assert PadDay(d) == ['0', d[0]];
    }
  }

  /**
   * The strict parser rejects "oggi" without a time, where the loose one
   * would have answered now: the two parsers disagree on such texts.
   */
  lemma StrictRejectsBareToday(input: string, now: DateTime)
    requires ValidDate(now.date)
    requires Contains(ToLower(input), "oggi") && !HasTime(input)
    ensures ParseSubitoDate(input, now) == None
    ensures ParseDate(Some(input), now) == Some(Iso(now))
  {
    assert input != [];
  }
}
