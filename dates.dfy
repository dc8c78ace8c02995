/**
 * The calendar timestamp an event is anchored at. java.util.Date is a point on
 * a time line; here it is a record of the fields the program reads from it
 * through GregorianCalendar (YEAR, MONTH counted from 0, DAY_OF_MONTH) plus the
 * time of day the user enters, and its position on the time line is a linear
 * count of minutes.
 */
module Dates {

  type Month0 = m: int | 0 <= m < 12
  type Day = d: int | 1 <= d <= 31 witness 1
  type Hour = h: int | 0 <= h < 24
  type Minute = m: int | 0 <= m < 60

  datatype Date = Date(year: int, month0: Month0, day: Day, hour: Hour, minute: Minute)

  /** Months elapsed since January of year 0 (negative before it). */
  function MonthIndex(year: int, month0: int): int {
    year * 12 + month0
  }

  /**
   * Minutes elapsed since the start of year 0, with every month 31 days long:
   * the stand-in for the millisecond count that Date.compareTo compares.
   */
  function Instant(d: Date): int {
    (MonthIndex(d.year, d.month0) * 31 + (d.day - 1)) * 1440 + d.hour * 60 + d.minute
  }

  /** EventDateComparator.compare: -1, 0 or 1 as the first instant is before, equal to or after the second. */
  function Compare(a: Date, b: Date): int {
    if Instant(a) < Instant(b) then -1 else if Instant(a) == Instant(b) then 0 else 1
  }

  /** Strict lexicographic order on (year, month, day, hour, minute). */
  predicate Before(a: Date, b: Date) {
    || a.year < b.year
    || (a.year == b.year && a.month0 < b.month0)
    || (a.year == b.year && a.month0 == b.month0 && a.day < b.day)
    || (a.year == b.year && a.month0 == b.month0 && a.day == b.day && a.hour < b.hour)
    || (a.year == b.year && a.month0 == b.month0 && a.day == b.day && a.hour == b.hour && a.minute < b.minute)
  }

  /** x*k + r is ordered as (x, r) lexicographically when both remainders are below k. */
  lemma MixedRadix(x: int, r: int, y: int, s: int, k: int)
    requires 0 <= r < k && 0 <= s < k
    ensures x * k + r < y * k + s <==> x < y || (x == y && r < s)
    ensures x * k + r == y * k + s <==> x == y && r == s
  {
    if x < y {
      MultipleGap(x, y, k);
    } else if y < x {
      MultipleGap(y, x, k);
    }
  }

  lemma MultipleGap(x: int, y: int, k: int)
    requires x < y && k > 0
    ensures y * k >= x * k + k
  {
    var d := y - x;
    assert y * k == x * k + d * k;
    MultiplyAtLeast(d, k);
  }

  lemma {:induction false} MultiplyAtLeast(d: int, k: int)
    requires d >= 1 && k > 0
    ensures d * k >= k
    decreases d
  {
    if d > 1 {
      MultiplyAtLeast(d - 1, k);
      assert d * k == (d - 1) * k + k;
    }
  }

  lemma InstantOrder(a: Date, b: Date)
    ensures Instant(a) < Instant(b) <==> Before(a, b)
    ensures Instant(a) == Instant(b) <==> a == b
  {
    MixedRadix(a.year, a.month0, b.year, b.month0, 12);
    var ma, mb := MonthIndex(a.year, a.month0), MonthIndex(b.year, b.month0);
    MixedRadix(ma, a.day - 1, mb, b.day - 1, 31);
    var da, db := ma * 31 + (a.day - 1), mb * 31 + (b.day - 1);
    MixedRadix(a.hour, a.minute, b.hour, b.minute, 60);
    MixedRadix(da, a.hour * 60 + a.minute, db, b.hour * 60 + b.minute, 1440);
  }

  /** The comparator's sign is the lexicographic order of the date fields. */
  lemma CompareSign(a: Date, b: Date)
    ensures Compare(a, b) < 0 <==> Before(a, b)
    ensures Compare(a, b) == 0 <==> a == b
    ensures Compare(a, b) > 0 <==> Before(b, a)
    ensures Compare(a, b) == -Compare(b, a)
  {
    InstantOrder(a, b);
    InstantOrder(b, a);
  }

  /** "a is not after b" under the comparator: the order every bucket is sorted by. */
  predicate NotAfter(a: Date, b: Date) {
    Compare(a, b) <= 0
  }

  lemma NotAfterTotalPreorder(a: Date, b: Date, c: Date)
    ensures NotAfter(a, a)
    ensures NotAfter(a, b) || NotAfter(b, a)
    ensures NotAfter(a, b) && NotAfter(b, c) ==> NotAfter(a, c)
    ensures NotAfter(a, b) && NotAfter(b, a) ==> a == b
  {
    InstantOrder(a, b);
  }

  /** Sorted ascending by the comparator. */
  predicate Sorted(ds: seq<Date>) {
    forall i, j :: 0 <= i < j < |ds| ==> NotAfter(ds[i], ds[j])
  }

  /**
   * Where a stable sorted insertion puts d: after every leading date not after d,
   * before the first date strictly after it.
   */
  function InsertionPoint(ds: seq<Date>, d: Date): (k: nat)
    ensures k <= |ds|
    ensures forall j :: 0 <= j < k ==> NotAfter(ds[j], d)
    ensures k < |ds| ==> Compare(d, ds[k]) < 0
  {
    if ds == [] || Compare(d, ds[0]) < 0 then 0
    else
      CompareSign(d, ds[0]);
      1 + InsertionPoint(ds[1..], d)
  }

  /** Inserting at the insertion point keeps a sorted sequence sorted. */
  lemma InsertKeepsSorted(ds: seq<Date>, d: Date)
    requires Sorted(ds)
    ensures var k := InsertionPoint(ds, d); Sorted(ds[..k] + [d] + ds[k..])
  {
    var k := InsertionPoint(ds, d);
    var r := ds[..k] + [d] + ds[k..];
    forall i, j | 0 <= i < j < |r| ensures NotAfter(r[i], r[j]) {
      if j < k || i > k {
        assert NotAfter(ds[if i < k then i else i - 1], ds[if j < k then j else j - 1]);
      } else if i == k {
        assert Compare(d, ds[k]) < 0;
        assert NotAfter(ds[k], ds[j - 1]);
        NotAfterTotalPreorder(d, ds[k], ds[j - 1]);
      } else if j == k {
        assert NotAfter(ds[i], d);
      } else {
        assert NotAfter(ds[i], d) && Compare(d, ds[k]) < 0 && NotAfter(ds[k], ds[j - 1]);
        NotAfterTotalPreorder(ds[i], d, ds[k]);
        NotAfterTotalPreorder(ds[i], ds[k], ds[j - 1]);
      }
    }
  }
}
