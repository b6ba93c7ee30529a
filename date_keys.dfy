/** parseDateString: the sort key of a card's "DD/MM/YYYY" date text, which is the time value
    of `new Date(year, month - 1, day)` (ECMA-262, 2019 edition, sections 20.3.1 and 20.3.2.1),
    or the literal 0 when the text does not split into exactly three parts on '/'.
    The local time zone is taken to be UTC. */
module DateKeys {
  import opened Text

  /** A JavaScript number, as far as this model needs one: an integer or NaN. */
  datatype JsNumber = Finite(value: int) | NaN

  function Sub(a: JsNumber, b: JsNumber): JsNumber {
    if a.NaN? || b.NaN? then NaN else Finite(a.value - b.value)
  }

  /** Number(s) on one field of the date: after trimming white space, the empty string is 0 and
      a run of decimal digits is its value; everything else is NaN here. */
  function ToNumber(s: string): (r: JsNumber)
    ensures r.Finite? <==> AllDigits(Trim(s))
    ensures r.Finite? ==> r.value >= 0
    ensures Trim(s) == [] ==> r == Finite(0)
  {
    var t := Trim(s);
    if t == [] then Finite(0)
    else if AllDigits(t) then Finite(DecimalValue(t))
    else NaN
  }

  const MsPerDay: int := 86400000
  const MaxTime: int := 8640000000000000

  /** The day number of January 1st of year y (section 20.3.1.3). */
  function DayFromYear(y: int): int {
    365 * (y - 1970) + (y - 1969) / 4 - (y - 1901) / 100 + (y - 1601) / 400
  }

  predicate InLeapYear(y: int) {
    y % 4 == 0 && (y % 100 != 0 || y % 400 == 0)
  }

  function DaysInYear(y: int): int {
    if InLeapYear(y) then 366 else 365
  }

  /** Days of the year before the first of month index mn (0 = January; section 20.3.1.4). */
  function DaysBeforeMonth(mn: int, leap: bool): int
    requires 0 <= mn < 12
  {
    var l := if leap then 1 else 0;
    if mn == 0 then 0
    else if mn == 1 then 31
    else if mn == 2 then 59 + l
    else if mn == 3 then 90 + l
    else if mn == 4 then 120 + l
    else if mn == 5 then 151 + l
    else if mn == 6 then 181 + l
    else if mn == 7 then 212 + l
    else if mn == 8 then 243 + l
    else if mn == 9 then 273 + l
    else if mn == 10 then 304 + l
    else 334 + l
  }

  /** The length of month 1..12 of year y. */
  function DaysInMonth(y: int, month: int): int
    requires 1 <= month <= 12
  {
    if month == 2 then (if InLeapYear(y) then 29 else 28)
    else if month == 4 || month == 6 || month == 9 || month == 11 then 30
    else 31
  }

  /** MakeDay (section 20.3.1.12): month indices outside 0..11 carry into the year, and a
      day outside the month runs on into the neighbouring months. */
  function MakeDay(year: int, month: int, date: int): int {
    var ym := year + month / 12;
    var mn := month % 12;
    DayFromYear(ym) + DaysBeforeMonth(mn, InLeapYear(ym)) + date - 1
  }

  /** TimeClip (section 20.3.1.14). */
  function TimeClip(t: int): JsNumber {
    if -MaxTime <= t <= MaxTime then Finite(t) else NaN
  }

  /** new Date(year, monthIndex, day).getTime(), local time being UTC (section 20.3.2.1):
      a year from 0 to 99 means 1900 to 1999. */
  function NewDate(year: JsNumber, monthIndex: JsNumber, day: JsNumber): (r: JsNumber)
    ensures year.NaN? || monthIndex.NaN? || day.NaN? ==> r.NaN?
    ensures r.Finite? ==> -MaxTime <= r.value <= MaxTime && r.value % MsPerDay == 0
  {
    if year.NaN? || monthIndex.NaN? || day.NaN? then NaN
    else
      var yr := if 0 <= year.value <= 99 then 1900 + year.value else year.value;
      var days := MakeDay(yr, monthIndex.value, day.value);
      WholeDays(days);
      TimeClip(days * MsPerDay)
  }

  /** A whole number of days is a multiple of the length of a day. */
  lemma WholeDays(days: int)
    ensures (days * MsPerDay) % MsPerDay == 0
  {
    assert days * MsPerDay == MsPerDay * days;
  }

  /** parseDateString. */
  function ParseDateString(s: string): (r: JsNumber)
    ensures Count(s, '/') != 2 ==> r == Finite(0)
  {
    var parts := Split(s, '/');
    if |parts| != 3 then Finite(0)
    else NewDate(ToNumber(parts[2]), Sub(ToNumber(parts[1]), Finite(1)), ToNumber(parts[0]))
  }

  // ---------------------------------------------------------------- calendar dates

  /** A date of the proleptic Gregorian calendar with a four-digit year. */
  datatype CalendarDate = CalendarDate(day: nat, month: nat, year: nat)

  predicate ValidDate(d: CalendarDate) {
    1000 <= d.year <= 9999 && 1 <= d.month <= 12 && 1 <= d.day <= DaysInMonth(d.year, d.month)
  }

  /** Calendar order: by year, then month, then day. */
  predicate Before(d1: CalendarDate, d2: CalendarDate) {
    d1.year < d2.year
    || (d1.year == d2.year && d1.month < d2.month)
    || (d1.year == d2.year && d1.month == d2.month && d1.day < d2.day)
  }

  function Pad2(n: nat): string {
    if n < 10 then "0" + DecimalString(n) else DecimalString(n)
  }

  /** The DD/MM/YYYY text of a date, as a card shows it. */
  function Format(d: CalendarDate): string {
    Join([Pad2(d.day), Pad2(d.month), DecimalString(d.year)], '/')
  }

  function DayNumber(d: CalendarDate): int {
    MakeDay(d.year, d.month - 1, d.day)
  }

  // ---------------------------------------------------------------- lemmas

  lemma FloorStep4(y: int)
    ensures (y - 1968) / 4 == (y - 1969) / 4 + (if y % 4 == 0 then 1 else 0)
  {
    assert (y - 1969) % 4 == 3 <==> y % 4 == 0;
  }

  lemma FloorStep100(y: int)
    ensures (y - 1900) / 100 == (y - 1901) / 100 + (if y % 100 == 0 then 1 else 0)
  {
    assert (y - 1901) % 100 == 99 <==> y % 100 == 0;
  }

  lemma FloorStep400(y: int)
    ensures (y - 1600) / 400 == (y - 1601) / 400 + (if y % 400 == 0 then 1 else 0)
  {
    assert (y - 1601) % 400 == 399 <==> y % 400 == 0;
  }

  /** Consecutive years start DaysInYear apart. */
  lemma NextYear(y: int)
    ensures DayFromYear(y + 1) == DayFromYear(y) + DaysInYear(y)
  {
    FloorStep4(y);
    FloorStep100(y);
    FloorStep400(y);
    CenturyDivides(y);
    var d4 := if y % 4 == 0 then 1 else 0;
    var d100 := if y % 100 == 0 then 1 else 0;
    var d400 := if y % 400 == 0 then 1 else 0;
    assert DayFromYear(y + 1) == DayFromYear(y) + 365 + d4 - d100 + d400;
    assert DaysInYear(y) == 365 + d4 - d100 + d400;
  }

  /** Every fourth century year is a century year, and every century year a multiple of 4. */
  lemma CenturyDivides(y: int)
    ensures y % 400 == 0 ==> y % 100 == 0
    ensures y % 100 == 0 ==> y % 4 == 0
  {
    if y % 400 == 0 {
      QuadCentury(y);
    }
    if y % 100 == 0 {
      Century(y);
    }
  }

  lemma QuadCentury(y: int)
    requires y % 400 == 0
    ensures y % 100 == 0
  {
    var q := y / 400;
    assert y == 100 * (4 * q);
  }

  lemma Century(y: int)
    requires y % 100 == 0
    ensures y % 4 == 0
  {
    var q := y / 100;
    assert y == 4 * (25 * q);
  }

  /** A later year starts after every day of an earlier one. */
  lemma {:induction false} YearsInOrder(y1: int, y2: int)
    requires y1 < y2
    ensures DayFromYear(y1) + DaysInYear(y1) <= DayFromYear(y2)
    decreases y2 - y1
  {
    NextYear(y1);
    if y1 + 1 < y2 {
      YearsInOrder(y1 + 1, y2);
    }
  }

  /** A valid date falls inside its own year, at its offset from the year's first day. */
  lemma DayNumberInYear(d: CalendarDate)
    requires ValidDate(d)
    ensures DayNumber(d) == DayFromYear(d.year) + DaysBeforeMonth(d.month - 1, InLeapYear(d.year)) + d.day - 1
    ensures DayFromYear(d.year) <= DayNumber(d) < DayFromYear(d.year) + DaysInYear(d.year)
  {
    var mn := d.month - 1;
    assert mn / 12 == 0 && mn % 12 == mn;
  }

  /** Within a year, an earlier month ends before a later one begins. */
  lemma MonthsInOrder(m1: int, m2: int, y: int)
    requires 1 <= m1 < m2 <= 12
    ensures DaysBeforeMonth(m1 - 1, InLeapYear(y)) + DaysInMonth(y, m1) <= DaysBeforeMonth(m2 - 1, InLeapYear(y))
  {
  }

  /** Day numbers follow the calendar: strictly earlier dates have strictly smaller numbers. */
  lemma DayNumberMonotone(d1: CalendarDate, d2: CalendarDate)
    requires ValidDate(d1) && ValidDate(d2) && Before(d1, d2)
    ensures DayNumber(d1) < DayNumber(d2)
  {
    DayNumberInYear(d1);
    DayNumberInYear(d2);
    var n1, n2 := DayNumber(d1), DayNumber(d2);
    if d1.year < d2.year {
      YearsInOrder(d1.year, d2.year);
      assert n1 < DayFromYear(d1.year) + DaysInYear(d1.year) <= DayFromYear(d2.year) <= n2;
    } else if d1.month < d2.month {
      var leap := InLeapYear(d1.year);
      MonthsInOrder(d1.month, d2.month, d1.year);
      assert DaysBeforeMonth(d1.month - 1, leap) + d1.day - 1 < DaysBeforeMonth(d2.month - 1, leap) + d2.day - 1;
    }
  }

  /** The day numbers of valid dates lie far inside the range TimeClip keeps. */
  lemma DayNumberBounded(d: CalendarDate)
    requires ValidDate(d)
    ensures -MaxTime <= DayNumber(d) * MsPerDay <= MaxTime
  {
    DayNumberInYear(d);
    assert -400000 <= DayNumber(d) <= 3000000;
  }

  lemma Pad2Digits(n: nat)
    ensures AllDigits(Pad2(n)) && Pad2(n) != [] && DecimalValue(Pad2(n)) == n
  {
    if n < 10 {
      DecimalValueLeadingZero(DecimalString(n));
    }
  }

  lemma ToNumberOfDigits(s: string)
    requires s != [] && AllDigits(s)
    ensures ToNumber(s) == Finite(DecimalValue(s))
  {
    TrimDigits(s);
  }

  lemma NoSlashInDigits(s: string)
    requires AllDigits(s)
    ensures '/' !in s
  {
  }

  /** Splitting the DD/MM/YYYY text of a date on '/' gives back its three numerals. */
  lemma SplitFormat(d: CalendarDate)
    ensures Split(Format(d), '/') == [Pad2(d.day), Pad2(d.month), DecimalString(d.year)]
  {
    var parts := [Pad2(d.day), Pad2(d.month), DecimalString(d.year)];
    Pad2Digits(d.day);
    Pad2Digits(d.month);
    NoSlashInDigits(parts[0]);
    NoSlashInDigits(parts[1]);
    NoSlashInDigits(parts[2]);
    SplitJoin(parts, '/');
  }

  /** The time value of the first instant of a valid date. */
  lemma NewDateOfValid(d: CalendarDate)
    requires ValidDate(d)
    ensures NewDate(Finite(d.year), Finite(d.month - 1), Finite(d.day)) == Finite(DayNumber(d) * MsPerDay)
  {
    DayNumberBounded(d);
  }

  lemma ParseParts(s: string, parts: seq<string>)
    requires Split(s, '/') == parts && |parts| == 3
    ensures ParseDateString(s) == NewDate(ToNumber(parts[2]), Sub(ToNumber(parts[1]), Finite(1)), ToNumber(parts[0]))
  {
  }

  /** The key depends on the three numeric fields only: texts that split into three pieces whose
      matching fields have the same Number get the same key. */
  lemma SameFieldsSameKey(s: string, t: string)
    requires |Split(s, '/')| == 3 && |Split(t, '/')| == 3
    requires forall k :: 0 <= k < 3 ==> ToNumber(Split(s, '/')[k]) == ToNumber(Split(t, '/')[k])
    ensures ParseDateString(s) == ParseDateString(t)
  {
    ParseParts(s, Split(s, '/'));
    ParseParts(t, Split(t, '/'));
  }

  /** A text of three slash-free fields joined by '/' splits back into those fields. */
  lemma SplitThree(day: string, month: string, year: string)
    requires '/' !in day && '/' !in month && '/' !in year
    ensures Split(day + "/" + month + "/" + year, '/') == [day, month, year]
  {
    var parts := [day, month, year];
    assert Join(parts[2..], '/') == year;
    assert Join(parts[1..], '/') == month + "/" + year;
    assert Join(parts, '/') == day + "/" + month + "/" + year;
    SplitJoin(parts, '/');
  }

  /** Number ignores leading white space. */
  lemma {:induction false} ToNumberLeadingSpace(s: string)
    ensures ToNumber(" " + s) == ToNumber(s)
  {
    var t := " " + s;
    assert t[1..] == s && IsWhiteSpace(t[0]);
    assert TrimStart(t) == TrimStart(s);
    assert Trim(t) == Trim(s);
  }

  lemma PadIsSpaceThenZero(s: string)
    ensures " 0" + s == " " + ("0" + s)
  {
    assert " 0" == " " + "0";
  }

  /** A field padded with a space and a leading zero: still no '/', and the same Number. */
  lemma ToNumberPadded(s: string)
    requires s != [] && AllDigits(s)
    ensures '/' !in " 0" + s
    ensures ToNumber(" 0" + s) == ToNumber(s)
  {
    NoSlashInDigits(s);
    var z := "0" + s;
    ToNumberOfDigits(s);
    DecimalValueLeadingZero(s);
    ToNumberOfDigits(z);
    ToNumberLeadingSpace(z);
    PadIsSpaceThenZero(s);
  }

  /** Two texts of three slash-free fields whose matching fields have the same Number tie. */
  lemma FieldsSameKey(day1: string, month1: string, year1: string, day2: string, month2: string, year2: string)
    requires '/' !in day1 && '/' !in month1 && '/' !in year1
    requires '/' !in day2 && '/' !in month2 && '/' !in year2
    requires ToNumber(day1) == ToNumber(day2) && ToNumber(month1) == ToNumber(month2)
    requires ToNumber(year1) == ToNumber(year2)
    ensures ParseDateString(day1 + "/" + month1 + "/" + year1) == ParseDateString(day2 + "/" + month2 + "/" + year2)
  {
    SplitThree(day1, month1, year1);
    SplitThree(day2, month2, year2);
    ParseParts(day1 + "/" + month1 + "/" + year1, [day1, month1, year1]);
    ParseParts(day2 + "/" + month2 + "/" + year2, [day2, month2, year2]);
  }

  /** Padding the day and the month with a space and a leading zero does not change the key:
      "1/1/2020" and " 01/ 01/2020" tie. */
  lemma PaddedFieldsTie(day: string, month: string, year: string)
    requires day != [] && AllDigits(day) && month != [] && AllDigits(month) && AllDigits(year)
    ensures ParseDateString(day + "/" + month + "/" + year)
         == ParseDateString((" 0" + day) + "/" + (" 0" + month) + "/" + year)
  {
    NoSlashInDigits(day);
    NoSlashInDigits(month);
    NoSlashInDigits(year);
    ToNumberPadded(day);
    ToNumberPadded(month);
    FieldsSameKey(day, month, year, " 0" + day, " 0" + month, year);
  }

  /** The date built from three numeric fields, the middle one taken as a 1-based month. */
  lemma FieldsDate(yearField: JsNumber, monthField: JsNumber, dayField: JsNumber, day: nat, month: nat, year: nat)
    requires yearField == Finite(year) && monthField == Finite(month) && dayField == Finite(day)
    ensures NewDate(yearField, Sub(monthField, Finite(1)), dayField) == NewDate(Finite(year), Finite(month - 1), Finite(day))
  {
    assert Sub(monthField, Finite(1)) == Finite(month - 1);
  }

  /** Each numeral of the DD/MM/YYYY text reads back as its number. */
  lemma FormatFields(d: CalendarDate)
    ensures ToNumber(Pad2(d.day)) == Finite(d.day)
    ensures ToNumber(Pad2(d.month)) == Finite(d.month)
    ensures ToNumber(DecimalString(d.year)) == Finite(d.year)
  {
    Pad2Digits(d.day);
    Pad2Digits(d.month);
    ToNumberOfDigits(Pad2(d.day));
    ToNumberOfDigits(Pad2(d.month));
    ToNumberOfDigits(DecimalString(d.year));
  }

  /** The DD/MM/YYYY text of any date parses to `new Date(year, month - 1, day)`. */
  lemma ParseFormatFields(d: CalendarDate)
    ensures ParseDateString(Format(d)) == NewDate(Finite(d.year), Finite(d.month - 1), Finite(d.day))
  {
    var dd, mm, yyyy := Pad2(d.day), Pad2(d.month), DecimalString(d.year);
    SplitFormat(d);
    ParseParts(Format(d), [dd, mm, yyyy]);
    FormatFields(d);
    FieldsDate(ToNumber(yyyy), ToNumber(mm), ToNumber(dd), d.day, d.month, d.year);
  }

  /** A DD/MM/YYYY text of a valid date parses to the start of that day. */
  lemma ParseFormat(d: CalendarDate)
    requires ValidDate(d)
    ensures ParseDateString(Format(d)) == Finite(DayNumber(d) * MsPerDay)
  {
    ParseFormatFields(d);
    NewDateOfValid(d);
  }

  /** Day numbers of valid dates follow the calendar both ways, and tell dates apart. */
  lemma DayNumberOrder(d1: CalendarDate, d2: CalendarDate)
    requires ValidDate(d1) && ValidDate(d2)
    ensures DayNumber(d1) < DayNumber(d2) <==> Before(d1, d2)
    ensures DayNumber(d1) == DayNumber(d2) <==> d1 == d2
  {
    if Before(d1, d2) {
      DayNumberMonotone(d1, d2);
    } else if Before(d2, d1) {
      DayNumberMonotone(d2, d1);
    } else {
      assert d1 == d2;
    }
  }

  lemma ScaleByDay(n1: int, n2: int)
    ensures n1 * MsPerDay < n2 * MsPerDay <==> n1 < n2
    ensures n1 * MsPerDay == n2 * MsPerDay <==> n1 == n2
  {
  }

  /** Over well-formed DD/MM/YYYY texts the key orders dates as the calendar does, and equal
      keys mean equal dates. */
  lemma KeyOrderIsCalendarOrder(d1: CalendarDate, d2: CalendarDate)
    requires ValidDate(d1) && ValidDate(d2)
    ensures ParseDateString(Format(d1)).Finite? && ParseDateString(Format(d2)).Finite?
    ensures ParseDateString(Format(d1)).value < ParseDateString(Format(d2)).value <==> Before(d1, d2)
    ensures ParseDateString(Format(d1)) == ParseDateString(Format(d2)) <==> d1 == d2
  {
    ParseFormat(d1);
    ParseFormat(d2);
    DayNumberOrder(d1, d2);
    ScaleByDay(DayNumber(d1), DayNumber(d2));
  }

  /** The fallback key 0 is the time value of 1 January 1970, not the earliest possible key:
      an empty date text ties with "01/01/1970". */
  lemma SentinelIsEpoch()
    ensures ParseDateString("") == ParseDateString(Format(CalendarDate(1, 1, 1970))) == Finite(0)
  {
    var epoch := CalendarDate(1, 1, 1970);
    assert Count("", '/') == 0;
    assert DayFromYear(1970) == 0;
    assert DayNumber(epoch) == 0;
    ParseFormat(epoch);
  }

  /** ... so that under "oldest" a card dated "31/12/1969" sorts before one without a date. */
  lemma BeforeSentinel()
    ensures ParseDateString(Format(CalendarDate(31, 12, 1969))) == Finite(-MsPerDay)
  {
    var eve := CalendarDate(31, 12, 1969);
    assert DayFromYear(1969) == -365;
    assert DayNumber(eve) == -1;
    ParseFormat(eve);
  }
}
