/**
 * The two pure helpers of the program: the "YYYYMM" key under which
 * non-recurring events are filed, and the day of month of an event.
 */
module Utility {
  import opened Decimal
  import opened Dates
  import opened Events

  /** The year zero-padded to 4 digits, then the (0-based) month zero-padded to 2. */
  function MonthYearKey(month: int, year: int): string {
    ZeroPadded(year, 4) + ZeroPadded(month, 2)
  }

  datatype MonthYear = MonthYear(month: int, year: int)

  /** A key the way MonthYearKey lays out a non-negative year: digits, at least three of them. */
  predicate WellFormedKey(k: string) {
    |k| >= 3 && AllDigits(k)
  }

  /** Reads a key back: the last two characters are the month, the rest the year. */
  function ParseMonthYearKey(k: string): MonthYear
    requires WellFormedKey(k)
  {
    MonthYear(ParseNat(k[|k| - 2..]), ParseNat(k[..|k| - 2]))
  }

  /** A month in 0..99 fills its two-digit field exactly. */
  lemma MonthFieldWidth(month: int)
    requires 0 <= month <= 99
    ensures |ZeroPadded(month, 2)| == 2 && AllDigits(ZeroPadded(month, 2))
  {
    assert Pow10(2) == 100;
    DigitsLength(month, 2);
    ParsePadded(month, 2);
  }

  /** A key glued from digit strings splits back at two characters from the end. */
  lemma ParseKeyParts(y: string, m: string)
    requires |y| >= 1 && AllDigits(y) && |m| == 2 && AllDigits(m)
    ensures WellFormedKey(y + m)
    ensures ParseMonthYearKey(y + m) == MonthYear(ParseNat(m), ParseNat(y))
  {
    var k := y + m;
    assert k[..|k| - 2] == y;
    assert k[|k| - 2..] == m;
  }

  /** Parsing undoes the key for every year from 0 on and every month in 0..99. */
  lemma KeyRoundTrip(month: int, year: int)
    requires 0 <= month <= 99 && year >= 0
    ensures WellFormedKey(MonthYearKey(month, year))
    ensures ParseMonthYearKey(MonthYearKey(month, year)) == MonthYear(month, year)
  {
    var y, m := ZeroPadded(year, 4), ZeroPadded(month, 2);
    ZeroPaddedRoundTrip(year, 4);
    ZeroPaddedRoundTrip(month, 2);
    MonthFieldWidth(month);
    ParseKeyParts(y, m);
  }

  /** Two (month, year) pairs with months in 0..99 and years from 0 on never share a key. */
  lemma KeyInjective(m1: int, y1: int, m2: int, y2: int)
    requires 0 <= m1 <= 99 && 0 <= m2 <= 99 && y1 >= 0 && y2 >= 0
    requires MonthYearKey(m1, y1) == MonthYearKey(m2, y2)
    ensures m1 == m2 && y1 == y2
  {
    KeyRoundTrip(m1, y1);
    KeyRoundTrip(m2, y2);
  }

  /** For years 0..9999 and months 0..99 the key is exactly six decimal digits. */
  lemma KeySixDigits(month: int, year: int)
    requires 0 <= month <= 99 && 0 <= year <= 9999
    ensures |MonthYearKey(month, year)| == 6 && AllDigits(MonthYearKey(month, year))
  {
    assert Pow10(4) == 10000;
    DigitsLength(year, 4);
    ParsePadded(year, 4);
    MonthFieldWidth(month);
  }

  /** The month is 0-based: November 2014 is "201410" and October 2014 is "201409". */
  lemma SeedDataKeys()
    ensures MonthYearKey(10, 2014) == "201410"
    ensures MonthYearKey(9, 2014) == "201409"
  {
    assert Digits(2) == "2";
    assert Digits(20) == "20";
    assert Digits(201) == "201";
    assert Digits(2014) == "2014";
    assert ZeroPadded(2014, 4) == "2014";
    assert Digits(1) == "1";
    assert Digits(10) == "10";
    assert ZeroPadded(10, 2) == "10";
    assert Digits(9) == "9";
    assert Repeat('0', 1) == "0";
    assert ZeroPadded(9, 2) == "09";
  }

  /** getEventDayOfMonth: the DAY_OF_MONTH field of the event's date. */
  function EventDayOfMonth(e: Event): (d: int)
    reads e
    ensures 1 <= d <= 31
    ensures d == e.date.day
  {
    e.date.day
  }
}
