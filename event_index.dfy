/**
 * The index structures behind the store: the name map (lower-cased name to
 * the events of that name) and the frequency buckets (daily, weekly and
 * monthly queues, twelve yearly queues keyed by the 0-based month, and lists
 * of non-recurring events keyed by "YYYYMM"). Buckets hold references to the
 * shared Event objects; the queues are date-ordered sequences.
 */
module EventIndex {
  import opened Dates
  import opened Events
  import opened Utility

  /** Which bucket an event belongs to. */
  datatype Slot = DailySlot | WeeklySlot | MonthlySlot | YearlySlot(month: int) | OnceSlot(key: string)

  /** The frequency buckets as values. */
  datatype Index = Index(
    nonRecurring: map<string, seq<Event>>,
    daily: seq<Event>,
    weekly: seq<Event>,
    monthly: seq<Event>,
    yearly: map<int, seq<Event>>)

  /** The bucket addToFrequencyMaps picks for an event of the given frequency and date. */
  function SlotOf(f: Frequency, d: Date): Slot {
    match f
    case DAILY => DailySlot
    case WEEKLY => WeeklySlot
    case MONTHLY => MonthlySlot
    case YEARLY => YearlySlot(d.month0)
    case NONE => OnceSlot(MonthYearKey(d.month0, d.year))
  }

  /**
   * The slot tells the frequency back, and with it the month of a yearly event
   * and the (month, year) of a non-recurring one: no two kinds share a bucket.
   */
  lemma SlotDetermines(f1: Frequency, d1: Date, f2: Frequency, d2: Date)
    requires SlotOf(f1, d1) == SlotOf(f2, d2)
    requires d1.year >= 0 && d2.year >= 0
    ensures f1 == f2
    ensures f1 == YEARLY ==> d1.month0 == d2.month0
    ensures f1 == NONE ==> d1.month0 == d2.month0 && d1.year == d2.year
  {
    if f1 == NONE {
      KeyInjective(d1.month0, d1.year, d2.month0, d2.year);
    }
  }

  /** The contents of a bucket; an absent key reads as an empty bucket. */
  function Bucket(ix: Index, s: Slot): seq<Event> {
    match s
    case DailySlot => ix.daily
    case WeeklySlot => ix.weekly
    case MonthlySlot => ix.monthly
    case YearlySlot(m) => if m in ix.yearly then ix.yearly[m] else []
    case OnceSlot(k) => if k in ix.nonRecurring then ix.nonRecurring[k] else []
  }

  /** ix with bucket s replaced by b. */
  function WithBucket(ix: Index, s: Slot, b: seq<Event>): (r: Index)
    ensures Bucket(r, s) == b
    ensures forall t :: t != s ==> Bucket(r, t) == Bucket(ix, t)
    ensures r.yearly.Keys == ix.yearly.Keys + (if s.YearlySlot? then {s.month} else {})
    ensures r.nonRecurring.Keys == ix.nonRecurring.Keys + (if s.OnceSlot? then {s.key} else {})
  {
    match s
    case DailySlot => ix.(daily := b)
    case WeeklySlot => ix.(weekly := b)
    case MonthlySlot => ix.(monthly := b)
    case YearlySlot(m) => ix.(yearly := ix.yearly[m := b])
    case OnceSlot(k) => ix.(nonRecurring := ix.nonRecurring[k := b])
  }

  /** The index right after initializeMaps: everything empty, twelve yearly queues. */
  function Initial(): Index {
    Index(map[], [], [], [], MonthQueues(12))
  }

  /** The yearly map after the first n rounds of initializeMaps' loop: months 0..n-1, each empty. */
  function MonthQueues(n: nat): (m: map<int, seq<Event>>)
    ensures forall k :: k in m <==> 0 <= k < n
    ensures forall k :: k in m ==> m[k] == []
  {
    if n == 0 then map[] else MonthQueues(n - 1)[n - 1 := []]
  }

  ghost predicate YearlyReady(ix: Index) {
    forall m :: m in ix.yearly <==> 0 <= m < 12
  }

  predicate Distinct(s: seq<Event>) {
    forall i, j :: 0 <= i < j < |s| ==> s[i] != s[j]
  }

  function DatesOf(s: seq<Event>): (ds: seq<Date>)
    reads s`date
    ensures |ds| == |s|
    ensures forall i :: 0 <= i < |s| ==> ds[i] == s[i].date
  {
    if s == [] then [] else [s[0].date] + DatesOf(s[1..])
  }

  /** Where Collection.remove(Object) finds its argument: the first identical element. */
  function IndexOf(s: seq<Event>, e: Event): (i: nat)
    ensures i <= |s|
    ensures forall j :: 0 <= j < i ==> s[j] != e
    ensures i < |s| ==> s[i] == e
  {
    if s == [] || s[0] == e then 0 else 1 + IndexOf(s[1..], e)
  }

  /** s without its i-th element; the elements after it move up by one. */
  function Without(s: seq<Event>, i: int): (r: seq<Event>)
    requires 0 <= i < |s|
    ensures |r| == |s| - 1
    ensures forall j :: 0 <= j < |r| ==> r[j] == s[if j < i then j else j + 1]
  {
    s[..i] + s[i + 1..]
  }

  /** Dropping one element of a duplicate-free sequence drops exactly that element. */
  lemma WithoutMembers(s: seq<Event>, i: int)
    requires 0 <= i < |s|
    requires Distinct(s)
    ensures Distinct(Without(s, i))
    ensures forall x :: x in Without(s, i) <==> x in s && x != s[i]
  {
    var r := Without(s, i);
    forall x ensures x in r <==> x in s && x != s[i] {
      if x in r {
        var j :| 0 <= j < |r| && r[j] == x;
        assert x == s[if j < i then j else j + 1];
      }
      if x in s && x != s[i] {
        var j :| 0 <= j < |s| && s[j] == x;
        assert r[if j < i then j else j - 1] == x;
      }
    }
  }

  /** Collection.remove(Object): drops the first occurrence of e, if any (Event has identity equality). */
  function RemoveFirst(s: seq<Event>, e: Event): (r: seq<Event>)
    ensures e !in s ==> r == s
    ensures e in s ==> |r| == |s| - 1
  {
    var i := IndexOf(s, e);
    if i < |s| then Without(s, i) else s
  }

  /** Removal takes away exactly one copy of e when there is one. */
  lemma RemoveFirstCounts(s: seq<Event>, e: Event)
    ensures multiset(RemoveFirst(s, e)) == multiset(s) - multiset{e}
  {
    var i := IndexOf(s, e);
    if i < |s| {
      SplitCounts(s, i);
    } else {
      assert e !in s;
    }
  }

  lemma SplitCounts(s: seq<Event>, i: int)
    requires 0 <= i < |s|
    ensures multiset(s) == multiset(s[..i] + s[i + 1..]) + multiset{s[i]}
  {
    assert s == s[..i] + [s[i]] + s[i + 1..];
  }

  /** PriorityQueue.add under the date comparator: after every element not later than d. */
  function InsertByDate(s: seq<Event>, e: Event, d: Date): (r: seq<Event>)
    reads s`date
    ensures |r| == |s| + 1
  {
    var k := InsertionPoint(DatesOf(s), d);
    s[..k] + [e] + s[k..]
  }

  /** Insertion adds exactly one copy of e. */
  lemma InsertByDateCounts(s: seq<Event>, e: Event, d: Date)
    ensures multiset(InsertByDate(s, e, d)) == multiset(s) + multiset{e}
  {
    var k := InsertionPoint(DatesOf(s), d);
    assert s == s[..k] + s[k..];
  }

  /** addToFrequencyMaps: sorted insertion into a queue, appending to a non-recurring list. */
  function Filed(ix: Index, e: Event, f: Frequency, d: Date): Index
    reads Bucket(ix, SlotOf(f, d))`date
  {
    var s := SlotOf(f, d);
    WithBucket(ix, s, if f == NONE then Bucket(ix, s) + [e] else InsertByDate(Bucket(ix, s), e, d))
  }

  /**
   * Filing changes only the bucket its frequency and date choose, and that
   * bucket gains exactly one copy of e; a non-recurring list gains it at the end.
   */
  lemma FiledAt(ix: Index, e: Event, f: Frequency, d: Date)
    ensures var s := SlotOf(f, d);
      forall t :: t != s ==> Bucket(Filed(ix, e, f, d), t) == Bucket(ix, t)
    ensures var s := SlotOf(f, d);
      multiset(Bucket(Filed(ix, e, f, d), s)) == multiset(Bucket(ix, s)) + multiset{e}
    ensures f == NONE ==> var s := SlotOf(f, d);
      Bucket(Filed(ix, e, f, d), s) == Bucket(ix, s) + [e]
  {
    var s := SlotOf(f, d);
    if f != NONE {
      InsertByDateCounts(Bucket(ix, s), e, d);
    }
  }

  /** Filing depends on the heap only through the dates of the events in the target bucket. */
  twostate lemma FiledFrame(ix: Index, new e: Event, new f: Frequency, new d: Date)
    requires old(allocated(e))
    requires unchanged(Bucket(ix, SlotOf(f, d))`date)
    ensures Filed(ix, e, f, d) == old(Filed(ix, e, f, d))
  {
  }

  /**
   * Whether deleteEventFromFrequencyMaps gets past its map lookup: for a yearly
   * or a non-recurring event the key must be present, or the lookup returns
   * null and the remove call throws a NullPointerException.
   */
  predicate CanUnfile(ix: Index, f: Frequency, d: Date) {
    match f
    case YEARLY => d.month0 in ix.yearly
    case NONE => MonthYearKey(d.month0, d.year) in ix.nonRecurring
    case _ => true
  }

  /** deleteEventFromFrequencyMaps: removes e from the bucket its current frequency and date pick. */
  function Unfiled(ix: Index, e: Event, f: Frequency, d: Date): Index
    requires CanUnfile(ix, f, d)
  {
    var s := SlotOf(f, d);
    WithBucket(ix, s, RemoveFirst(Bucket(ix, s), e))
  }

  /** Unfiling replaces one field of the index: the queue, or the map entry, its frequency and date pick. */
  lemma UnfiledFields(ix: Index, e: Event, f: Frequency, d: Date)
    requires CanUnfile(ix, f, d)
    ensures f == DAILY ==> Unfiled(ix, e, f, d) == ix.(daily := RemoveFirst(ix.daily, e))
    ensures f == WEEKLY ==> Unfiled(ix, e, f, d) == ix.(weekly := RemoveFirst(ix.weekly, e))
    ensures f == MONTHLY ==> Unfiled(ix, e, f, d) == ix.(monthly := RemoveFirst(ix.monthly, e))
    ensures f == YEARLY ==>
      Unfiled(ix, e, f, d) == ix.(yearly := ix.yearly[d.month0 := RemoveFirst(ix.yearly[d.month0], e)])
    ensures f == NONE ==> var k := MonthYearKey(d.month0, d.year);
      Unfiled(ix, e, f, d) == ix.(nonRecurring := ix.nonRecurring[k := RemoveFirst(ix.nonRecurring[k], e)])
  {
    var s := SlotOf(f, d);
    var b := RemoveFirst(Bucket(ix, s), e);
    assert Unfiled(ix, e, f, d) == WithBucket(ix, s, b);
  }

  /**
   * The frequency index invariant over the set R of stored events: twelve
   * yearly buckets; every bucket holds only stored events whose own slot it
   * is, each once; every stored event is in its slot's bucket; the queues are
   * in date order.
   */
  ghost predicate FrequencyIndexed(ix: Index, R: set<Event>)
    reads R`frequency, R`date
  {
    YearlyReady(ix) && Holds(ix, R) && NoDuplicates(ix) && Covers(ix, R) && QueuesSorted(ix, R)
  }

  /** Every bucket holds only stored events whose own slot it is. */
  ghost predicate Holds(ix: Index, R: set<Event>)
    reads R`frequency, R`date
  {
    forall s, e {:trigger e in Bucket(ix, s)} :: e in Bucket(ix, s) ==> e in R && SlotOf(e.frequency, e.date) == s
  }

  ghost predicate NoDuplicates(ix: Index) {
    forall s :: Distinct(Bucket(ix, s))
  }

  /** Every stored event is in the bucket of its slot. */
  ghost predicate Covers(ix: Index, R: set<Event>)
    reads R`frequency, R`date
  {
    forall e :: e in R ==> e in Bucket(ix, SlotOf(e.frequency, e.date))
  }

  /** The daily, weekly, monthly and yearly queues are in date order. */
  ghost predicate QueuesSorted(ix: Index, R: set<Event>)
    requires Holds(ix, R)
    reads R`frequency, R`date
  {
    forall s: Slot :: !s.OnceSlot? ==> (HeldInStore(ix, R, s); Sorted(DatesOf(Bucket(ix, s))))
  }

  /** Every event a bucket holds is a stored one. */
  lemma HeldInStore(ix: Index, R: set<Event>, s: Slot)
    requires Holds(ix, R)
    ensures forall x: object :: x in Bucket(ix, s) ==> x in R
  {
    forall x: object | x in Bucket(ix, s) ensures x in R {
      var e := x as Event;
      assert e in Bucket(ix, s);
    }
  }

  /** The invariant depends on the stored events only through their frequencies and dates. */
  twostate lemma FrequencyIndexedFrame(ix: Index, new R: set<Event>)
    requires old(allocated(R))
    requires old(FrequencyIndexed(ix, R))
    requires unchanged(R`frequency, R`date)
    ensures FrequencyIndexed(ix, R)
  {
  }

  /** Every stored event sits in exactly one bucket, the one its frequency chooses. */
  lemma OneBucket(ix: Index, R: set<Event>, e: Event, s: Slot)
    requires FrequencyIndexed(ix, R)
    requires e in R
    ensures e in Bucket(ix, s) <==> s == SlotOf(e.frequency, e.date)
  {
  }

  /** A stored event missing from the bucket of its own slot breaks the invariant. */
  lemma StrandedNotIndexed(ix: Index, R: set<Event>, e: Event)
    requires e in R && e !in Bucket(ix, SlotOf(e.frequency, e.date))
    ensures !FrequencyIndexed(ix, R)
  {
    assert !Covers(ix, R);
  }

  /** Filing into the empty index: a one-event list under the key, or a one-event yearly queue. */
  lemma FiledIntoInitial(e: Event, f: Frequency, d: Date)
    ensures f == NONE ==>
      Filed(Initial(), e, f, d) == Initial().(nonRecurring := map[MonthYearKey(d.month0, d.year) := [e]])
    ensures f == YEARLY ==>
      Filed(Initial(), e, f, d) == Initial().(yearly := Initial().yearly[d.month0 := [e]])
  {
    var s := SlotOf(f, d);
    assert Bucket(Initial(), s) == [];
    assert [] + [e] == [e];
    assert InsertByDate([], e, d) == [e];
  }

  lemma InitialIndexed()
    ensures FrequencyIndexed(Initial(), {})
    ensures forall s :: Bucket(Initial(), s) == []
  {
  }

  /** A queue stays in date order after a sorted insertion. */
  lemma InsertByDateSorted(s: seq<Event>, e: Event)
    requires Sorted(DatesOf(s))
    ensures Sorted(DatesOf(InsertByDate(s, e, e.date)))
  {
    var ds := DatesOf(s);
    var k := InsertionPoint(ds, e.date);
    InsertKeepsSorted(ds, e.date);
    var r := InsertByDate(s, e, e.date);
    assert r == s[..k] + [e] + s[k..];
    var want := ds[..k] + [e.date] + ds[k..];
    forall j | 0 <= j < |r| ensures DatesOf(r)[j] == want[j] {
      if j < k {
        assert r[j] == s[j];
      } else if j > k {
        assert r[j] == s[j - 1];
      }
    }
    assert DatesOf(r) == want;
  }

  /** Dropping an element keeps a queue in date order. */
  lemma WithoutSorted(s: seq<Event>, i: int)
    requires 0 <= i < |s|
    requires Sorted(DatesOf(s))
    ensures Sorted(DatesOf(Without(s, i)))
  {
    DatesOfWithout(s, i);
    SortedWithout(DatesOf(s), DatesOf(Without(s, i)), i);
  }

  lemma DatesOfWithout(s: seq<Event>, i: int)
    requires 0 <= i < |s|
    ensures var ds, dw := DatesOf(s), DatesOf(Without(s, i));
      |dw| == |ds| - 1 && forall j :: 0 <= j < |dw| ==> dw[j] == ds[if j < i then j else j + 1]
  {
  }

  /** Dropping one date keeps a date sequence sorted. */
  lemma SortedWithout(ds: seq<Date>, dw: seq<Date>, i: int)
    requires 0 <= i < |ds| && |dw| == |ds| - 1
    requires forall j :: 0 <= j < |dw| ==> dw[j] == ds[if j < i then j else j + 1]
    requires Sorted(ds)
    ensures Sorted(dw)
  {
    forall a, b | 0 <= a < b < |dw| ensures NotAfter(dw[a], dw[b]) {
      assert dw[a] == ds[if a < i then a else a + 1];
      assert dw[b] == ds[if b < i then b else b + 1];
    }
  }

  /** Element by element, the insertion shifts the tail up by one to make room for e. */
  lemma InsertByDateAt(s: seq<Event>, e: Event, d: Date)
    ensures var k := InsertionPoint(DatesOf(s), d); var r := InsertByDate(s, e, d);
      && r[k] == e
      && (forall j :: 0 <= j < k ==> r[j] == s[j])
      && (forall j :: k < j < |r| ==> r[j] == s[j - 1])
  {
  }

  lemma InsertByDateMembers(s: seq<Event>, e: Event, d: Date)
    requires Distinct(s) && e !in s
    ensures Distinct(InsertByDate(s, e, d))
    ensures forall x :: x in InsertByDate(s, e, d) <==> x in s || x == e
  {
    var k := InsertionPoint(DatesOf(s), d);
    var r := InsertByDate(s, e, d);
    InsertByDateAt(s, e, d);
    forall x ensures x in r <==> x in s || x == e {
      if x in r {
        var j :| 0 <= j < |r| && r[j] == x;
      }
      if x in s {
        var j :| 0 <= j < |s| && s[j] == x;
        assert r[if j < k then j else j + 1] == x;
      }
    }
    forall i, j | 0 <= i < j < |r| ensures r[i] != r[j] {
      if i != k && j != k {
        assert r[i] == s[if i < k then i else i - 1];
        assert r[j] == s[if j < k then j else j - 1];
      }
    }
  }

  /** Appending a new element to a duplicate-free list keeps it duplicate-free. */
  lemma AppendMembers(s: seq<Event>, e: Event)
    requires Distinct(s) && e !in s
    ensures Distinct(s + [e])
  {
    forall i, j | 0 <= i < j < |s + [e]| ensures (s + [e])[i] != (s + [e])[j] {
      if j == |s| {
        assert (s + [e])[i] in s;
      }
    }
  }

  lemma ReplaceHolds(ix: Index, R: set<Event>, s: Slot, b: seq<Event>, R': set<Event>)
    requires Holds(ix, R)
    requires forall x :: x in b ==> x in R' && SlotOf(x.frequency, x.date) == s
    requires forall x :: x in R && SlotOf(x.frequency, x.date) != s ==> x in R'
    ensures Holds(WithBucket(ix, s, b), R')
  {
    var ix' := WithBucket(ix, s, b);
    forall t, x | x in Bucket(ix', t) ensures x in R' && SlotOf(x.frequency, x.date) == t {
      if t != s {
        assert x in Bucket(ix, t);
      }
    }
  }

  lemma ReplaceCovers(ix: Index, R: set<Event>, s: Slot, b: seq<Event>, R': set<Event>)
    requires Covers(ix, R)
    requires forall x :: x in R' && SlotOf(x.frequency, x.date) == s ==> x in b
    requires forall x :: x in R' && SlotOf(x.frequency, x.date) != s ==> x in R
    ensures Covers(WithBucket(ix, s, b), R')
  {
    var ix' := WithBucket(ix, s, b);
    forall x | x in R' ensures x in Bucket(ix', SlotOf(x.frequency, x.date)) {
      var t := SlotOf(x.frequency, x.date);
      if t != s {
        assert x in Bucket(ix, t);
      }
    }
  }

  lemma ReplaceNoDuplicates(ix: Index, s: Slot, b: seq<Event>)
    requires NoDuplicates(ix)
    requires Distinct(b)
    ensures NoDuplicates(WithBucket(ix, s, b))
  {
    var ix' := WithBucket(ix, s, b);
    forall t ensures Distinct(Bucket(ix', t)) {
      if t != s {
        assert Bucket(ix', t) == Bucket(ix, t);
      }
    }
  }

  lemma ReplaceSorted(ix: Index, R: set<Event>, s: Slot, b: seq<Event>, R': set<Event>)
    requires Holds(ix, R) && QueuesSorted(ix, R)
    requires Holds(WithBucket(ix, s, b), R')
    requires !s.OnceSlot? ==> Sorted(DatesOf(b))
    ensures QueuesSorted(WithBucket(ix, s, b), R')
  {
    var ix' := WithBucket(ix, s, b);
    forall t: Slot | !t.OnceSlot? ensures Sorted(DatesOf(Bucket(ix', t))) {
      if t != s {
        assert Bucket(ix', t) == Bucket(ix, t);
      }
    }
  }

  /**
   * Replacing one bucket keeps the invariant, for the new stored set R', when
   * the new bucket holds exactly the events of R' of that slot, once each, in
   * order if it is a queue, and R' agrees with R outside that slot.
   */
  lemma ReplaceBucket(ix: Index, R: set<Event>, s: Slot, b: seq<Event>, R': set<Event>)
    requires FrequencyIndexed(ix, R)
    requires s.YearlySlot? ==> 0 <= s.month < 12
    requires forall x :: x in b ==> x in R' && SlotOf(x.frequency, x.date) == s
    requires Distinct(b)
    requires !s.OnceSlot? ==> Sorted(DatesOf(b))
    requires forall x :: x in R' && SlotOf(x.frequency, x.date) == s ==> x in b
    requires forall x :: x in R' && SlotOf(x.frequency, x.date) != s ==> x in R
    requires forall x :: x in R && SlotOf(x.frequency, x.date) != s ==> x in R'
    ensures FrequencyIndexed(WithBucket(ix, s, b), R')
  {
    ReplaceHolds(ix, R, s, b, R');
    ReplaceCovers(ix, R, s, b, R');
    ReplaceNoDuplicates(ix, s, b);
    ReplaceSorted(ix, R, s, b, R');
  }

  /** Replacing a bucket by one that holds its old events plus a new event e keeps the invariant. */
  lemma AddToBucket(ix: Index, R: set<Event>, s: Slot, b: seq<Event>, e: Event)
    requires FrequencyIndexed(ix, R)
    requires e !in R && SlotOf(e.frequency, e.date) == s
    requires forall x :: x in b <==> x in Bucket(ix, s) || x == e
    requires Distinct(b)
    requires !s.OnceSlot? ==> Sorted(DatesOf(b))
    ensures FrequencyIndexed(WithBucket(ix, s, b), R + {e})
  {
    forall x | x in b ensures x in R + {e} && SlotOf(x.frequency, x.date) == s {
      if x != e {
        assert x in Bucket(ix, s);
      }
    }
    forall x | x in R + {e} && SlotOf(x.frequency, x.date) == s ensures x in b {
      if x != e {
        assert x in Bucket(ix, SlotOf(x.frequency, x.date));
      }
    }
    ReplaceHolds(ix, R, s, b, R + {e});
    ReplaceCovers(ix, R, s, b, R + {e});
    ReplaceNoDuplicates(ix, s, b);
    ReplaceSorted(ix, R, s, b, R + {e});
    assert YearlyReady(WithBucket(ix, s, b));
  }

  /** Filing a new event keeps the invariant, with the event added to the stored set. */
  lemma FiledKeepsIndexed(ix: Index, R: set<Event>, e: Event)
    requires FrequencyIndexed(ix, R)
    requires e !in R
    ensures FrequencyIndexed(Filed(ix, e, e.frequency, e.date), R + {e})
  {
    if e.frequency == NONE {
      AppendKeepsIndexed(ix, R, e);
    } else {
      InsertKeepsIndexed(ix, R, e);
    }
  }

  lemma AppendKeepsIndexed(ix: Index, R: set<Event>, e: Event)
    requires FrequencyIndexed(ix, R)
    requires e !in R && e.frequency == NONE
    ensures FrequencyIndexed(Filed(ix, e, e.frequency, e.date), R + {e})
  {
    var s := SlotOf(e.frequency, e.date);
    var b := Bucket(ix, s);
    assert e !in b;
    AppendMembers(b, e);
    AddToBucket(ix, R, s, b + [e], e);
  }

  lemma InsertKeepsIndexed(ix: Index, R: set<Event>, e: Event)
    requires FrequencyIndexed(ix, R)
    requires e !in R && e.frequency != NONE
    ensures FrequencyIndexed(Filed(ix, e, e.frequency, e.date), R + {e})
  {
    var s := SlotOf(e.frequency, e.date);
    var b := Bucket(ix, s);
    assert e !in b;
    assert Sorted(DatesOf(b));
    InsertByDateMembers(b, e, e.date);
    InsertByDateSorted(b, e);
    AddToBucket(ix, R, s, InsertByDate(b, e, e.date), e);
  }

  /** Unfiling a stored event succeeds and keeps the invariant, with the event gone from the stored set. */
  lemma UnfiledKeepsIndexed(ix: Index, R: set<Event>, e: Event)
    requires FrequencyIndexed(ix, R)
    requires e in R
    ensures CanUnfile(ix, e.frequency, e.date)
    ensures FrequencyIndexed(Unfiled(ix, e, e.frequency, e.date), R - {e})
  {
    var s := SlotOf(e.frequency, e.date);
    var b := Bucket(ix, s);
    assert e in b;
    var i := IndexOf(b, e);
    WithoutMembers(b, i);
    if !s.OnceSlot? {
      WithoutSorted(b, i);
    }
    ReplaceBucket(ix, R, s, Without(b, i), R - {e});
  }

  /**
   * Unfiling survives a change to the unfiled event itself. When every other
   * stored event is as it was, the buckets with e taken out of the slot it
   * used to have index the other stored events, whatever e's frequency and
   * date are now: updateEvent's re-filing starts from there.
   */
  twostate lemma UnfiledStaysIndexed(ix: Index, new R: set<Event>, new e: Event)
    requires old(allocated(R)) && old(allocated(e))
    requires old(FrequencyIndexed(ix, R)) && e in R
    requires unchanged(R - {e})
    ensures old(CanUnfile(ix, e.frequency, e.date))
    ensures FrequencyIndexed(old(Unfiled(ix, e, e.frequency, e.date)), R - {e})
  {
    var s := old(SlotOf(e.frequency, e.date));
    var b := Bucket(ix, s);
    assert e in b;
    var i := IndexOf(b, e);
    WithoutMembers(b, i);
    var u := WithBucket(ix, s, Without(b, i));
    assert old(Unfiled(ix, e, e.frequency, e.date)) == u;
    ReplaceNoDuplicates(ix, s, Without(b, i));
    UnfiledStaysHolds(ix, R, e, s, i);
    UnfiledStaysCovers(ix, R, e, s, i);
    UnfiledStaysSorted(ix, R, e, s, i);
  }

  /** Every event left in the buckets is another stored event, still in its own slot. */
  twostate lemma UnfiledStaysHolds(ix: Index, new R: set<Event>, new e: Event, new s: Slot, new i: int)
    requires old(allocated(R)) && old(allocated(e))
    requires old(FrequencyIndexed(ix, R)) && e in R
    requires unchanged(R - {e})
    requires s == old(SlotOf(e.frequency, e.date))
    requires 0 <= i < |Bucket(ix, s)| && i == IndexOf(Bucket(ix, s), e)
    ensures Holds(WithBucket(ix, s, Without(Bucket(ix, s), i)), R - {e})
  {
    UnfiledHeldBefore(ix, R, R - {e}, e, s, i);
  }

  /** The same, in the state before the change: what it says is then carried over by the frame. */
  twostate lemma UnfiledHeldBefore(ix: Index, new R: set<Event>, new R': set<Event>, new e: Event, new s: Slot, new i: int)
    requires old(allocated(R)) && old(allocated(R')) && old(allocated(e))
    requires old(Holds(ix, R)) && NoDuplicates(ix) && R' == R - {e}
    requires s == old(SlotOf(e.frequency, e.date))
    requires 0 <= i < |Bucket(ix, s)| && Bucket(ix, s)[i] == e
    ensures old(Holds(WithBucket(ix, s, Without(Bucket(ix, s), i)), R'))
  {
    var u := WithBucket(ix, s, Without(Bucket(ix, s), i));
    UnfiledBucketMembers(ix, s, i);
    forall t, x | x in Bucket(u, t) ensures x in R' && old(SlotOf(x.frequency, x.date)) == t {
      assert x in Bucket(ix, t) && (t == s ==> x != e);
      assert x in R && old(SlotOf(x.frequency, x.date)) == t;
    }
  }

  /** Taking the i-th event out of its bucket leaves the other buckets as they were and only other events in that one. */
  lemma UnfiledBucketMembers(ix: Index, s: Slot, i: int)
    requires NoDuplicates(ix) && 0 <= i < |Bucket(ix, s)|
    ensures var u := WithBucket(ix, s, Without(Bucket(ix, s), i));
      forall t, x :: x in Bucket(u, t) ==> x in Bucket(ix, t) && (t == s ==> x != Bucket(ix, s)[i])
  {
    WithoutMembers(Bucket(ix, s), i);
  }

  /** Every other stored event is still in the bucket of its slot. */
  twostate lemma UnfiledStaysCovers(ix: Index, new R: set<Event>, new e: Event, new s: Slot, new i: int)
    requires old(allocated(R)) && old(allocated(e))
    requires old(FrequencyIndexed(ix, R)) && e in R
    requires unchanged(R - {e})
    requires s == old(SlotOf(e.frequency, e.date))
    requires 0 <= i < |Bucket(ix, s)| && i == IndexOf(Bucket(ix, s), e)
    ensures Covers(WithBucket(ix, s, Without(Bucket(ix, s), i)), R - {e})
  {
    var b := Bucket(ix, s);
    var u := WithBucket(ix, s, Without(b, i));
    WithoutMembers(b, i);
    forall x | x in R - {e} ensures x in Bucket(u, SlotOf(x.frequency, x.date)) {
      assert old(x in Bucket(ix, SlotOf(x.frequency, x.date)));
    }
  }

  /** The queues stay in date order: the dates they hold are the same as before. */
  twostate lemma UnfiledStaysSorted(ix: Index, new R: set<Event>, new e: Event, new s: Slot, new i: int)
    requires old(allocated(R)) && old(allocated(e))
    requires old(FrequencyIndexed(ix, R)) && e in R
    requires unchanged(R - {e})
    requires s == old(SlotOf(e.frequency, e.date))
    requires 0 <= i < |Bucket(ix, s)| && i == IndexOf(Bucket(ix, s), e)
    requires Holds(WithBucket(ix, s, Without(Bucket(ix, s), i)), R - {e})
    ensures QueuesSorted(WithBucket(ix, s, Without(Bucket(ix, s), i)), R - {e})
  {
    var b := Bucket(ix, s);
    var u := WithBucket(ix, s, Without(b, i));
    forall t: Slot | !t.OnceSlot? ensures Sorted(DatesOf(Bucket(u, t))) {
      var bt := Bucket(u, t);
      BucketDatesStay(bt, R - {e});
      if t == s {
        assert old(Sorted(DatesOf(b)));
        WithoutSortedBefore(b, i);
      } else {
        assert old(Sorted(DatesOf(Bucket(ix, t))));
      }
    }
  }

  /** A bucket of events none of which changed lists the same dates as before. */
  twostate lemma BucketDatesStay(b: seq<Event>, new R: set<Event>)
    requires old(allocated(R))
    requires forall x :: x in b ==> x in R
    requires unchanged(R)
    ensures DatesOf(b) == old(DatesOf(b))
  {
    forall j | 0 <= j < |b| ensures DatesOf(b)[j] == old(DatesOf(b))[j] {
      assert b[j] in R;
    }
  }

  /** WithoutSorted, in the earlier state. */
  twostate lemma WithoutSortedBefore(b: seq<Event>, new i: int)
    requires 0 <= i < |b|
    requires old(Sorted(DatesOf(b)))
    ensures old(Sorted(DatesOf(Without(b, i))))
  {
    DatesOfWithoutBefore(b, i);
    SortedWithout(old(DatesOf(b)), old(DatesOf(Without(b, i))), i);
  }

  twostate lemma DatesOfWithoutBefore(b: seq<Event>, new i: int)
    requires 0 <= i < |b|
    ensures var ds, dw := old(DatesOf(b)), old(DatesOf(Without(b, i)));
      |dw| == |ds| - 1 && forall j :: 0 <= j < |dw| ==> dw[j] == ds[if j < i then j else j + 1]
  {
  }

  /**
   * Deleting right after adding restores every bucket. The one trace left is
   * the key a non-recurring event created: it stays behind, mapped to an empty list.
   */
  lemma FileThenUnfile(ix: Index, e: Event)
    requires YearlyReady(ix)
    requires e !in Bucket(ix, SlotOf(e.frequency, e.date))
    ensures CanUnfile(Filed(ix, e, e.frequency, e.date), e.frequency, e.date)
    ensures var key := MonthYearKey(e.date.month0, e.date.year);
      Unfiled(Filed(ix, e, e.frequency, e.date), e, e.frequency, e.date)
        == if e.frequency == NONE && key !in ix.nonRecurring
           then ix.(nonRecurring := ix.nonRecurring[key := []])
           else ix
  {
    var s := SlotOf(e.frequency, e.date);
    var b := Bucket(ix, s);
    UnfileFiledBucket(ix, e);
    var key := MonthYearKey(e.date.month0, e.date.year);
    if e.frequency == NONE && key !in ix.nonRecurring {
      assert WithBucket(ix, s, b) == ix.(nonRecurring := ix.nonRecurring[key := []]);
    } else {
      WithBucketSame(ix, s);
    }
  }

  /** Unfiling a just-filed event puts its bucket back as it was. */
  lemma UnfileFiledBucket(ix: Index, e: Event)
    requires YearlyReady(ix)
    requires e !in Bucket(ix, SlotOf(e.frequency, e.date))
    ensures CanUnfile(Filed(ix, e, e.frequency, e.date), e.frequency, e.date)
    ensures var s := SlotOf(e.frequency, e.date);
      Unfiled(Filed(ix, e, e.frequency, e.date), e, e.frequency, e.date) == WithBucket(ix, s, Bucket(ix, s))
  {
    var s := SlotOf(e.frequency, e.date);
    var b := Bucket(ix, s);
    var b' := if e.frequency == NONE then b + [e] else InsertByDate(b, e, e.date);
    var k := if e.frequency == NONE then |b| else InsertionPoint(DatesOf(b), e.date);
    assert b' == b[..k] + [e] + b[k..];
    RemoveInserted(b, e, k);
    var ix1 := Filed(ix, e, e.frequency, e.date);
    assert Unfiled(ix1, e, e.frequency, e.date) == WithBucket(ix1, s, b);
    WithBucketTwice(ix, s, b', b);
  }

  /** Removing an element that was inserted into a sequence not holding it gives the sequence back. */
  lemma RemoveInserted(s: seq<Event>, e: Event, k: int)
    requires e !in s && 0 <= k <= |s|
    ensures RemoveFirst(s[..k] + [e] + s[k..], e) == s
  {
    var r := s[..k] + [e] + s[k..];
    assert r[k] == e;
    forall j | 0 <= j < k ensures r[j] != e {
      assert r[j] == s[j];
    }
    assert IndexOf(r, e) == k;
    assert Without(r, k) == s[..k] + s[k..] == s;
  }

  lemma WithBucketTwice(ix: Index, s: Slot, b1: seq<Event>, b2: seq<Event>)
    ensures WithBucket(WithBucket(ix, s, b1), s, b2) == WithBucket(ix, s, b2)
  {
    match s
    case YearlySlot(m) =>
      assert ix.yearly[m := b1][m := b2] == ix.yearly[m := b2];
    case OnceSlot(k) =>
      assert ix.nonRecurring[k := b1][k := b2] == ix.nonRecurring[k := b2];
    case _ =>
  }

  lemma WithBucketSame(ix: Index, s: Slot)
    requires s.YearlySlot? ==> s.month in ix.yearly
    requires s.OnceSlot? ==> s.key in ix.nonRecurring
    ensures WithBucket(ix, s, Bucket(ix, s)) == ix
  {
    match s
    case YearlySlot(m) =>
      assert ix.yearly[m := ix.yearly[m]] == ix.yearly;
    case OnceSlot(k) =>
      assert ix.nonRecurring[k := ix.nonRecurring[k]] == ix.nonRecurring;
    case _ =>
  }

  /** Java's String.toLowerCase, on the ASCII letters. */
  function LowerChar(c: char): char {
    if 'A' <= c <= 'Z' then (c as int + 32) as char else c
  }

  function Lower(s: string): (r: string)
    ensures |r| == |s|
    ensures forall i :: 0 <= i < |s| ==> r[i] == LowerChar(s[i])
  {
    if s == [] then [] else [LowerChar(s[0])] + Lower(s[1..])
  }

  /** A lower-cased name is its own key: lower-casing twice changes nothing more. */
  lemma LowerIdempotent(s: string)
    ensures Lower(Lower(s)) == Lower(s)
    ensures forall i :: 0 <= i < |s| ==> !('A' <= Lower(s)[i] <= 'Z')
  {
    var l := Lower(s);
    forall i | 0 <= i < |s| ensures Lower(l)[i] == l[i] && !('A' <= l[i] <= 'Z') {
      assert l[i] == LowerChar(s[i]);
    }
  }

  /**
   * The name index invariant over the stored set R: no empty list; every
   * listed event is stored, listed once, under its own lower-cased name; every
   * stored event is listed.
   */
  ghost predicate NameIndexed(nm: map<string, seq<Event>>, R: set<Event>)
    reads R`name
  {
    && (forall k :: k in nm ==> nm[k] != [] && Distinct(nm[k]))
    && (forall k, e {:trigger e in nm[k]} :: k in nm && e in nm[k] ==> e in R && Lower(e.name) == k)
    && (forall e :: e in R ==> Lower(e.name) in nm && e in nm[Lower(e.name)])
  }

  /** The name index depends on the stored events only through their names. */
  twostate lemma NameIndexedFrame(nm: map<string, seq<Event>>, new R: set<Event>)
    requires old(allocated(R))
    requires old(NameIndexed(nm, R))
    requires unchanged(R`name)
    ensures NameIndexed(nm, R)
  {
  }

  /** The name-map half of addToMaps: append under the lower-cased name, or start a one-element list. */
  function Named(nm: map<string, seq<Event>>, e: Event, name: string): map<string, seq<Event>> {
    var k := Lower(name);
    nm[k := if k in nm then nm[k] + [e] else [e]]
  }

  /**
   * The name-map half of deleteEvent for the i-th event listed under k: the
   * only event takes its key with it, one of several leaves the others listed.
   */
  function UnnamedAt(nm: map<string, seq<Event>>, k: string, i: int): map<string, seq<Event>>
    requires k in nm && 0 <= i < |nm[k]|
  {
    if |nm[k]| == 1 then nm - {k} else nm[k := Without(nm[k], i)]
  }

  lemma NamedKeepsIndexed(nm: map<string, seq<Event>>, R: set<Event>, e: Event)
    requires NameIndexed(nm, R)
    requires e !in R
    ensures NameIndexed(Named(nm, e, e.name), R + {e})
  {
    var k := Lower(e.name);
    var l := if k in nm then nm[k] else [];
    var nm' := Named(nm, e, e.name);
    assert nm'[k] == l + [e];
    AppendMembers(l, e);
    forall k' | k' in nm' ensures nm'[k'] != [] && Distinct(nm'[k']) {
      if k' != k { assert nm'[k'] == nm[k']; }
    }
    forall k', x | k' in nm' && x in nm'[k'] ensures x in R + {e} && Lower(x.name) == k' {
      if k' != k {
        assert nm'[k'] == nm[k'];
      } else if x != e {
        assert x in l;
      }
    }
    forall x | x in R + {e} ensures Lower(x.name) in nm' && x in nm'[Lower(x.name)] {
      if x != e && Lower(x.name) == k {
        assert x in l;
      }
    }
  }

  /** Cutting the i-th event out of the list under k keeps the name index consistent without it. */
  lemma UnnamedKeepsIndexed(nm: map<string, seq<Event>>, R: set<Event>, k: string, i: int)
    requires NameIndexed(nm, R)
    requires k in nm && 0 <= i < |nm[k]|
    ensures Lower(nm[k][i].name) == k
    ensures NameIndexed(UnnamedAt(nm, k, i), R - {nm[k][i]})
  {
    var l := nm[k];
    assert l[i] in nm[k];
    WithoutMembers(l, i);
    if |l| > 1 {
      assert l[if i == 0 then 1 else 0] in Without(l, i);
    } else {
      forall x | x in l ensures x == l[i] {
        var j :| 0 <= j < |l| && l[j] == x;
      }
    }
  }

  /** Deleting the event just added under a name gives the name map back. */
  lemma NameRoundTrip(nm: map<string, seq<Event>>, e: Event, name: string)
    requires Lower(name) in nm ==> nm[Lower(name)] != []
    ensures var k := Lower(name); var nm' := Named(nm, e, name);
      k in nm' && UnnamedAt(nm', k, |nm'[k]| - 1) == nm
  {
    var k := Lower(name);
    var nm' := Named(nm, e, name);
    if k in nm {
      assert Without(nm[k] + [e], |nm[k]|) == nm[k];
      assert nm'[k := nm[k]] == nm;
    } else {
      assert nm' - {k} == nm;
    }
  }
}
