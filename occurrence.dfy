/**
 * When a recurring event shows up in a queried calendar month, how the month
 * browser steps between months, and what the early-exit scan of a bucket
 * keeps. Everything here is a function of anchor dates, so the store's query
 * can be specified by it.
 */
module Occurrence {
  import opened Dates
  import opened Utility

  /**
   * eventOccursInCalendarMonth, on the event's anchor date: a later year never
   * occurs, the same year occurs from the anchor month on, an earlier year always.
   */
  function OccursInCalendarMonth(d: Date, month: int, year: int): bool {
    if d.year > year then false
    else if d.year == year then d.month0 <= month
    else true
  }

  /** The predicate holds exactly when the anchor month is not later than the queried month. */
  lemma OccursIffAnchorNotLater(d: Date, month: int, year: int)
    requires 0 <= month < 12
    ensures OccursInCalendarMonth(d, month, year) <==> MonthIndex(d.year, d.month0) <= MonthIndex(year, month)
  {
    MixedRadix(d.year, d.month0, year, month, 12);
  }

  /** Once an event occurs in a month it occurs in every later month. */
  lemma OccursMonotone(d: Date, month: int, year: int, month': int, year': int)
    requires 0 <= month < 12 && 0 <= month' < 12
    requires MonthIndex(year, month) <= MonthIndex(year', month')
    requires OccursInCalendarMonth(d, month, year)
    ensures OccursInCalendarMonth(d, month', year')
  {
    OccursIffAnchorNotLater(d, month, year);
    OccursIffAnchorNotLater(d, month', year');
  }

  /** An event first occurs in its own anchor month: there, but not in the month before. */
  lemma OccursFromAnchorMonth(d: Date)
    ensures OccursInCalendarMonth(d, d.month0, d.year)
    ensures var p := PreviousMonth(MonthYear(d.month0, d.year)); !OccursInCalendarMonth(d, p.month, p.year)
  {
  }

  /** A date not after one that occurs occurs too: the predicate is downward closed in the comparator. */
  lemma OccursDownward(a: Date, b: Date, month: int, year: int)
    requires NotAfter(a, b)
    requires OccursInCalendarMonth(b, month, year)
    ensures OccursInCalendarMonth(a, month, year)
  {
    CompareSign(a, b);
  }

  /** The 'n' key of the month browser. */
  function NextMonth(my: MonthYear): MonthYear {
    if my.month == 11 then MonthYear(0, my.year + 1) else MonthYear(my.month + 1, my.year)
  }

  /** The 'p' key of the month browser. */
  function PreviousMonth(my: MonthYear): MonthYear {
    if my.month == 0 then MonthYear(11, my.year - 1) else MonthYear(my.month - 1, my.year)
  }

  predicate InRange(my: MonthYear) {
    0 <= my.month < 12
  }

  /** 'n' moves exactly one month forward and 'p' one month back, staying within 0..11. */
  lemma NavigationSteps(my: MonthYear)
    requires InRange(my)
    ensures InRange(NextMonth(my)) && InRange(PreviousMonth(my))
    ensures MonthIndex(NextMonth(my).year, NextMonth(my).month) == MonthIndex(my.year, my.month) + 1
    ensures MonthIndex(PreviousMonth(my).year, PreviousMonth(my).month) == MonthIndex(my.year, my.month) - 1
  {
  }

  /** 'n' then 'p', and 'p' then 'n', come back to the same month. */
  lemma NavigationRoundTrip(my: MonthYear)
    requires InRange(my)
    ensures PreviousMonth(NextMonth(my)) == my
    ensures NextMonth(PreviousMonth(my)) == my
  {
  }

  /**
   * How many leading dates the early-exit scan keeps: the longest prefix whose
   * every date occurs in the queried month.
   */
  function LeadingOccurring(ds: seq<Date>, month: int, year: int): (k: nat)
    ensures k <= |ds|
    ensures forall j :: 0 <= j < k ==> OccursInCalendarMonth(ds[j], month, year)
    ensures k < |ds| ==> !OccursInCalendarMonth(ds[k], month, year)
  {
    if ds == [] || !OccursInCalendarMonth(ds[0], month, year) then 0
    else 1 + LeadingOccurring(ds[1..], month, year)
  }

  /** A prefix of occurring dates followed by the end or by a date that does not occur is the kept prefix. */
  lemma LeadingOccurringExact(ds: seq<Date>, k: int, month: int, year: int)
    requires 0 <= k <= |ds|
    requires forall j :: 0 <= j < k ==> OccursInCalendarMonth(ds[j], month, year)
    requires k < |ds| ==> !OccursInCalendarMonth(ds[k], month, year)
    ensures LeadingOccurring(ds, month, year) == k
  {
  }

  /** The scan the early exit stands for: every date that occurs, in order. */
  function FilterOccurring(ds: seq<Date>, month: int, year: int): seq<Date>
  {
    if ds == [] then []
    else
      var head := if OccursInCalendarMonth(ds[0], month, year) then [ds[0]] else [];
      head + FilterOccurring(ds[1..], month, year)
  }

  lemma {:induction false} FilterNone(ds: seq<Date>, month: int, year: int)
    requires forall j :: 0 <= j < |ds| ==> !OccursInCalendarMonth(ds[j], month, year)
    ensures FilterOccurring(ds, month, year) == []
  {
    if ds != [] {
      FilterNone(ds[1..], month, year);
    }
  }

  /**
   * On a bucket sorted by the comparator the early exit loses nothing: the
   * kept prefix is exactly the filtered bucket, and a date is in the prefix
   * exactly when it occurs.
   */
  lemma {:induction false} SortedScanIsFilter(ds: seq<Date>, month: int, year: int)
    requires Sorted(ds)
    ensures FilterOccurring(ds, month, year) == ds[..LeadingOccurring(ds, month, year)]
    ensures forall i :: 0 <= i < |ds| ==>
      (i < LeadingOccurring(ds, month, year) <==> OccursInCalendarMonth(ds[i], month, year))
  {
    if ds == [] {
    } else if !OccursInCalendarMonth(ds[0], month, year) {
      forall j | 0 <= j < |ds| ensures !OccursInCalendarMonth(ds[j], month, year) {
        if j > 0 && OccursInCalendarMonth(ds[j], month, year) {
          OccursDownward(ds[0], ds[j], month, year);
        }
      }
      FilterNone(ds, month, year);
    } else {
      SortedScanIsFilter(ds[1..], month, year);
      assert ds[..LeadingOccurring(ds, month, year)] == [ds[0]] + ds[1..][..LeadingOccurring(ds[1..], month, year)];
    }
  }

  function DaysOf(ds: seq<Date>): (days: seq<int>)
    ensures |days| == |ds|
    ensures forall i :: 0 <= i < |ds| ==> days[i] == ds[i].day
  {
    if ds == [] then [] else [ds[0].day] + DaysOf(ds[1..])
  }

  /**
   * The days listEvents marks: every non-recurring event filed under the exact
   * key, then the kept prefix of the month's yearly bucket, then that of the
   * monthly bucket; no deduplication, and weekly and daily events add none.
   */
  function DaysToMark(nonRecurring: seq<Date>, yearly: seq<Date>, monthly: seq<Date>, month: int, year: int): seq<int>
  {
    DaysOf(nonRecurring)
      + DaysOf(yearly[..LeadingOccurring(yearly, month, year)])
      + DaysOf(monthly[..LeadingOccurring(monthly, month, year)])
  }

  /**
   * With sorted buckets a day is marked exactly when some non-recurring event
   * of the month, or some yearly or monthly event occurring in it, falls on it.
   */
  lemma MarkedDayCharacterised(nonRecurring: seq<Date>, yearly: seq<Date>, monthly: seq<Date>, month: int, year: int, day: int)
    requires Sorted(yearly) && Sorted(monthly)
    ensures day in DaysToMark(nonRecurring, yearly, monthly, month, year) <==>
      || (exists i :: 0 <= i < |nonRecurring| && nonRecurring[i].day == day)
      || (exists i :: 0 <= i < |yearly| && yearly[i].day == day && OccursInCalendarMonth(yearly[i], month, year))
      || (exists i :: 0 <= i < |monthly| && monthly[i].day == day && OccursInCalendarMonth(monthly[i], month, year))
  {
    SortedScanIsFilter(yearly, month, year);
    SortedScanIsFilter(monthly, month, year);
    var ky, km := LeadingOccurring(yearly, month, year), LeadingOccurring(monthly, month, year);
    var a, b, c := DaysOf(nonRecurring), DaysOf(yearly[..ky]), DaysOf(monthly[..km]);
    assert DaysToMark(nonRecurring, yearly, monthly, month, year) == a + b + c;
    if day in b {
      var i :| 0 <= i < |b| && b[i] == day;
      assert yearly[i].day == day;
    }
    if day in c {
      var i :| 0 <= i < |c| && c[i] == day;
      assert monthly[i].day == day;
    }
    if exists i :: 0 <= i < |yearly| && yearly[i].day == day && OccursInCalendarMonth(yearly[i], month, year) {
      var i :| 0 <= i < |yearly| && yearly[i].day == day && OccursInCalendarMonth(yearly[i], month, year);
      assert b[i] == day;
    }
    if exists i :: 0 <= i < |monthly| && monthly[i].day == day && OccursInCalendarMonth(monthly[i], month, year) {
      var i :| 0 <= i < |monthly| && monthly[i].day == day && OccursInCalendarMonth(monthly[i], month, year);
      assert c[i] == day;
    }
    if exists i :: 0 <= i < |nonRecurring| && nonRecurring[i].day == day {
      var i :| 0 <= i < |nonRecurring| && nonRecurring[i].day == day;
      assert a[i] == day;
    }
  }
}
