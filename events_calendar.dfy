/**
 * The month grid: a header row of weekday names, blank cells up to the first
 * weekday of the month, then one cell per day, right-aligned to two columns,
 * followed by '*' when the day is to be marked, seven cells to a row.
 * The terminal is replaced by the string the grid would print.
 */
module EventsCalendar {
  import opened Decimal

  const Header: string := "Su   Mo   Tu   We   Th   Fr   Sa\n"
  const Blank: string := "     "

  /** How many blank cells precede day 1 (one per weekday before the first). */
  function Lead(firstWeekdayOfMonth: int): nat {
    if firstWeekdayOfMonth > 1 then firstWeekdayOfMonth - 1 else 0
  }

  /**
   * The weekday counter once the cells of days 1..k are written: it starts at
   * lead, goes up by one per day and is reset to 0 when it reaches 7.
   */
  function Counter(lead: nat, k: int): nat
    decreases k
  {
    if k <= 0 then lead
    else if Counter(lead, k - 1) + 1 == 7 then 0
    else Counter(lead, k - 1) + 1
  }

  /** Whether the cell of this day closes a row: the counter reaches 7 on it. */
  predicate EndsWeek(lead: nat, day: int) {
    Counter(lead, day - 1) + 1 == 7
  }

  /** Java's "%2d" for a day number of at most two digits: right-aligned in two columns. */
  function DayText(day: int): string
    requires 0 <= day < 100
  {
    if day < 10 then [' ', DigitChar(day)] else [DigitChar(day / 10), DigitChar(day % 10)]
  }

  function Mark(day: int, daysToMark: seq<int>): string {
    if day in daysToMark then "*" else " "
  }

  function Separator(lead: nat, day: int): string {
    if EndsWeek(lead, day) then "\n" else "  "
  }

  /** The header line followed by k blank cells. */
  function Opening(k: nat): string {
    if k == 0 then Header else Opening(k - 1) + Blank
  }

  /**
   * What has been printed once the cells of days 1..k are written: each day
   * right-aligned to two columns, its mark, then a newline or a two-space gap.
   */
  function Printed(k: int, lead: nat, daysToMark: seq<int>): string
    requires k < 100
    decreases k
  {
    if k <= 0 then Opening(lead)
    else Printed(k - 1, lead, daysToMark) + DayText(k) + Mark(k, daysToMark) + Separator(lead, k)
  }

  /** The whole printed grid, ending with the final newline. */
  function Grid(numberOfMonthDays: int, firstWeekdayOfMonth: int, daysToMark: seq<int>): string
    requires numberOfMonthDays < 100
  {
    Printed(numberOfMonthDays, Lead(firstWeekdayOfMonth), daysToMark) + "\n"
  }

  /** printCalendar, writing into a string instead of the terminal. */
  method PrintCalendar(numberOfMonthDays: int, firstWeekdayOfMonth: int, daysToMark: seq<int>) returns (out: string)
    requires numberOfMonthDays < 100
    ensures out == Grid(numberOfMonthDays, firstWeekdayOfMonth, daysToMark)
  {
    var weekdayIndex;
    out, weekdayIndex := PrintLeadingBlanks(firstWeekdayOfMonth);
    out, weekdayIndex := PrintDays(out, weekdayIndex, numberOfMonthDays, Lead(firstWeekdayOfMonth), daysToMark);
    out := out + "\n";
  }

  /** The header, then one blank cell per weekday before the first day of the month. */
  method PrintLeadingBlanks(firstWeekdayOfMonth: int) returns (out: string, weekdayIndex: int)
    ensures out == Opening(Lead(firstWeekdayOfMonth))
    ensures weekdayIndex == Lead(firstWeekdayOfMonth)
  {
    weekdayIndex := 0;
    out := Header;
    var day := 1;
    while day < firstWeekdayOfMonth
      invariant 1 <= day <= if firstWeekdayOfMonth >= 1 then firstWeekdayOfMonth else 1
      invariant weekdayIndex == day - 1
      invariant out == Opening(day - 1)
    {
      out := out + Blank;
      weekdayIndex := weekdayIndex + 1;
      day := day + 1;
    }
  }

  /** The days of the month, seven cells to a row, continuing after the leading blanks. */
  method PrintDays(start: string, counter: int, numberOfMonthDays: int, ghost lead: nat, daysToMark: seq<int>)
    returns (out: string, weekdayIndex: int)
    requires start == Opening(lead) && counter == lead && numberOfMonthDays < 100
    ensures out == Printed(numberOfMonthDays, lead, daysToMark)
    ensures weekdayIndex == Counter(lead, numberOfMonthDays)
  {
    out, weekdayIndex := start, counter;
    var day := 1;
    while day <= numberOfMonthDays
      invariant 1 <= day <= if numberOfMonthDays >= 0 then numberOfMonthDays + 1 else 1
      invariant out == Printed(day - 1, lead, daysToMark)
      invariant weekdayIndex == Counter(lead, day - 1)
    {
      out := out + DayText(day);
      if day in daysToMark {
        out := out + "*";
      } else {
        out := out + " ";
      }
      weekdayIndex := weekdayIndex + 1;
      if weekdayIndex == 7 {
        weekdayIndex := 0;
        out := out + "\n";
      } else {
        out := out + "  ";
      }
      day := day + 1;
    }
    ghost var last := day - 1;
    assert last == numberOfMonthDays || (numberOfMonthDays < 0 && last == 0);
    assert Printed(last, lead, daysToMark) == Printed(numberOfMonthDays, lead, daysToMark);
    assert Counter(lead, last) == Counter(lead, numberOfMonthDays);
  }

  /**
   * Rows hold seven cells: with fewer than seven leading blanks the counter is
   * lead + k modulo 7 and a row closes exactly when lead + day is a multiple of
   * 7; with seven or more the counter only grows and no row ever closes.
   */
  lemma {:induction false} CounterModSeven(lead: nat, k: int)
    requires k >= 0
    ensures lead < 7 ==> Counter(lead, k) == (lead + k) % 7
    ensures lead >= 7 ==> Counter(lead, k) == lead + k
    decreases k
  {
    if k > 0 {
      CounterModSeven(lead, k - 1);
      if lead < 7 {
        ModSevenStep(lead + k - 1);
      }
    }
  }

  lemma ModSevenStep(x: int)
    ensures x % 7 + 1 == 7 ==> (x + 1) % 7 == 0
    ensures x % 7 + 1 != 7 ==> (x + 1) % 7 == x % 7 + 1
  {
  }

  lemma RowEndsEverySeven(lead: nat, day: int)
    requires day >= 1
    ensures EndsWeek(lead, day) <==> lead < 7 && (lead + day) % 7 == 0
  {
    CounterModSeven(lead, day - 1);
    ModSevenStep(lead + day - 1);
  }

  /** The days listed for marking, without order or repetition. */
  function Listed(daysToMark: seq<int>): set<int> {
    set d | d in daysToMark
  }

  /** Only whether a day is listed matters, not how often or in which order. */
  lemma {:induction false} PrintedDependsOnMarkedSet(k: int, lead: nat, marks1: seq<int>, marks2: seq<int>)
    requires k < 100
    requires Listed(marks1) == Listed(marks2)
    ensures Printed(k, lead, marks1) == Printed(k, lead, marks2)
    decreases k
  {
    if k > 0 {
      PrintedDependsOnMarkedSet(k - 1, lead, marks1, marks2);
      assert k in marks1 <==> k in Listed(marks1);
      assert Mark(k, marks1) == Mark(k, marks2);
    }
  }

  lemma GridDependsOnMarkedSet(n: int, first: int, marks1: seq<int>, marks2: seq<int>)
    requires n < 100
    requires Listed(marks1) == Listed(marks2)
    ensures Grid(n, first, marks1) == Grid(n, first, marks2)
  {
    PrintedDependsOnMarkedSet(n, Lead(first), marks1, marks2);
  }

  /** How many times c occurs in s. */
  function Count(s: string, c: char): nat {
    if s == [] then 0 else Count(s[..|s| - 1], c) + (if s[|s| - 1] == c then 1 else 0)
  }

  lemma {:induction false} CountAppend(a: string, b: string, c: char)
    ensures Count(a + b, c) == Count(a, c) + Count(b, c)
    decreases |b|
  {
    if b == [] {
      assert a + b == a;
    } else {
      var ab := a + b;
      assert ab[..|ab| - 1] == a + b[..|b| - 1];
      assert ab[|ab| - 1] == b[|b| - 1];
      CountAppend(a, b[..|b| - 1], c);
    }
  }

  lemma {:induction false} CountAbsent(s: string, c: char)
    requires forall i :: 0 <= i < |s| ==> s[i] != c
    ensures Count(s, c) == 0
    decreases |s|
  {
    if s != [] {
      CountAbsent(s[..|s| - 1], c);
    }
  }

  /** The days among 1..n that are listed for marking. */
  function MarkedDays(n: int, daysToMark: seq<int>): set<int> {
    set d | d in daysToMark && 1 <= d <= n
  }

  lemma DayTextHasNo(day: int, c: char)
    requires 0 <= day < 100
    requires !IsDigit(c) && c != ' '
    ensures Count(DayText(day), c) == 0
  {
    CountAbsent(DayText(day), c);
  }

  /** The two-column day text is exactly Java's "%2d" rendering of the day. */
  lemma DayTextIsSpacePadded(day: int)
    requires 0 <= day < 100
    ensures DayText(day) == SpacePadded(day, 2)
  {
    if day >= 10 {
      assert Digits(day / 10) == [DigitChar(day / 10)];
    } else {
      assert Repeat(' ', 1) == [' '];
    }
  }

  lemma MarkCount(day: int, daysToMark: seq<int>, c: char)
    requires c == '*' || c == '\n'
    ensures Count(Mark(day, daysToMark), c) == if c == '*' && day in daysToMark then 1 else 0
  {
    if day in daysToMark {
      assert Count("*", c) == if c == '*' then 1 else 0;
    } else {
      assert Count(" ", c) == 0;
    }
  }

  lemma SeparatorCount(lead: nat, day: int, c: char)
    requires c == '*' || c == '\n'
    ensures Count(Separator(lead, day), c) == if c == '\n' && EndsWeek(lead, day) then 1 else 0
  {
    if EndsWeek(lead, day) {
      assert Count("\n", c) == if c == '\n' then 1 else 0;
    } else {
      assert Count("  ", c) == 0;
    }
  }

  /** Counting a character over one more written day: only the mark and the separator can add one. */
  lemma CountStep(k: int, lead: nat, daysToMark: seq<int>, c: char)
    requires k < 100
    requires k >= 1 && (c == '*' || c == '\n')
    ensures Count(Printed(k, lead, daysToMark), c) == Count(Printed(k - 1, lead, daysToMark), c)
      + (if c == '*' && k in daysToMark then 1 else 0) + (if c == '\n' && EndsWeek(lead, k) then 1 else 0)
  {
    var p, t, m, s := Printed(k - 1, lead, daysToMark), DayText(k), Mark(k, daysToMark), Separator(lead, k);
    assert Printed(k, lead, daysToMark) == p + t + m + s;
    DayTextHasNo(k, c);
    MarkCount(k, daysToMark, c);
    SeparatorCount(lead, k, c);
    CountAppend(p, t, c);
    CountAppend(p + t, m, c);
    CountAppend(p + t + m, s, c);
  }

  lemma {:induction false} OpeningCount(k: nat, c: char)
    requires c == '*' || c == '\n'
    ensures Count(Opening(k), c) == if c == '\n' then 1 else 0
  {
    if k == 0 {
      var h := Header;
      assert h[..|h| - 1] == "Su   Mo   Tu   We   Th   Fr   Sa";
      CountAbsent(h[..|h| - 1], c);
    } else {
      OpeningCount(k - 1, c);
      CountAbsent(Blank, c);
      CountAppend(Opening(k - 1), Blank, c);
    }
  }

  /** Exactly one '*' per listed day in 1..k, however often it is listed. */
  lemma {:induction false} PrintedStarCount(k: int, lead: nat, daysToMark: seq<int>)
    requires k < 100
    ensures Count(Printed(k, lead, daysToMark), '*') == |MarkedDays(k, daysToMark)|
    decreases k
  {
    if k <= 0 {
      OpeningCount(lead, '*');
      assert MarkedDays(k, daysToMark) == {};
    } else {
      PrintedStarCount(k - 1, lead, daysToMark);
      CountStep(k, lead, daysToMark, '*');
      MarkedDaysStep(k, daysToMark);
    }
  }

  lemma MarkedDaysStep(n: int, daysToMark: seq<int>)
    requires n >= 1
    ensures |MarkedDays(n, daysToMark)| == |MarkedDays(n - 1, daysToMark)| + if n in daysToMark then 1 else 0
  {
    if n in daysToMark {
      assert MarkedDays(n, daysToMark) == MarkedDays(n - 1, daysToMark) + {n};
    } else {
      assert MarkedDays(n, daysToMark) == MarkedDays(n - 1, daysToMark);
    }
  }

  /** The days among 1..k whose cell closes a row. */
  function RowEnds(k: int, lead: nat): set<int> {
    set d | 1 <= d <= k && EndsWeek(lead, d)
  }

  lemma RowEndsStep(k: int, lead: nat)
    requires k >= 1
    ensures |RowEnds(k, lead)| == |RowEnds(k - 1, lead)| + if EndsWeek(lead, k) then 1 else 0
  {
    if EndsWeek(lead, k) {
      assert RowEnds(k, lead) == RowEnds(k - 1, lead) + {k};
    } else {
      assert RowEnds(k, lead) == RowEnds(k - 1, lead);
    }
  }

  /** Besides the header's, a newline follows exactly the cells that close a row. */
  lemma {:induction false} PrintedNewlineCount(k: int, lead: nat, daysToMark: seq<int>)
    requires k < 100
    ensures Count(Printed(k, lead, daysToMark), '\n') == 1 + |RowEnds(k, lead)|
    decreases k
  {
    if k <= 0 {
      OpeningCount(lead, '\n');
      assert RowEnds(k, lead) == {};
    } else {
      PrintedNewlineCount(k - 1, lead, daysToMark);
      CountStep(k, lead, daysToMark, '\n');
      RowEndsStep(k, lead);
    }
  }

  /**
   * The grid carries one '*' for each distinct marked day of the month, and
   * a newline for the header, for each completed row and one at the end.
   */
  lemma GridCounts(n: int, first: int, daysToMark: seq<int>)
    requires n < 100
    ensures Count(Grid(n, first, daysToMark), '*') == |MarkedDays(n, daysToMark)|
    ensures Count(Grid(n, first, daysToMark), '\n') == 2 + |RowEnds(n, Lead(first))|
  {
    var p := Printed(n, Lead(first), daysToMark);
    PrintedStarCount(n, Lead(first), daysToMark);
    PrintedNewlineCount(n, Lead(first), daysToMark);
    CountAppend(p, "\n", '*');
    CountAppend(p, "\n", '\n');
  }

  lemma {:induction false} PrintedStartsWithHeader(k: int, lead: nat, daysToMark: seq<int>)
    requires k < 100
    ensures |Printed(k, lead, daysToMark)| >= |Header|
    ensures Printed(k, lead, daysToMark)[..|Header|] == Header
    decreases k
  {
    if k <= 0 {
      OpeningStartsWithHeader(lead);
    } else {
      PrintedStartsWithHeader(k - 1, lead, daysToMark);
    }
  }

  /** Before day 1: the header, then k blank cells of five spaces each. */
  lemma {:induction false} OpeningStartsWithHeader(k: nat)
    ensures |Opening(k)| == |Header| + 5 * k && Opening(k)[..|Header|] == Header
    ensures forall i :: |Header| <= i < |Opening(k)| ==> Opening(k)[i] == ' '
  {
    if k > 0 {
      OpeningStartsWithHeader(k - 1);
      var p := Opening(k - 1);
      assert Opening(k) == p + Blank;
      forall i | |Header| <= i < |Opening(k)| ensures Opening(k)[i] == ' ' {
        if i >= |p| {
          assert Opening(k)[i] == Blank[i - |p|];
        }
      }
    }
  }

  /** The grid opens with the weekday header and closes with a newline. */
  lemma GridFrame(n: int, first: int, daysToMark: seq<int>)
    requires n < 100
    ensures var g := Grid(n, first, daysToMark);
      |g| > |Header| && g[..|Header|] == Header && g[|g| - 1] == '\n'
  {
    PrintedStartsWithHeader(n, Lead(first), daysToMark);
  }
}
