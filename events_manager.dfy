/**
 * The event store: the name map and the frequency buckets that initializeMaps
 * creates, and the operations of the events manager that change them or read
 * them for a calendar month. Terminal prompts are replaced by parameters.
 */
module EventsManager {
  import opened Dates
  import opened Events
  import opened Utility
  import opened Occurrence
  import opened EventIndex

  /** How an operation ended: normally, or with the NullPointerException a missing bucket key throws. */
  datatype Status = Done | NullPointer

  /**
   * Which listed event deleteEvent removes, as an index into the list under
   * the lower-cased name, or -1 when it removes nothing: no such name, or the
   * only event but no confirmation. Of several events, the selected one goes;
   * the selection is the number the prompt loop accepted, so it is in 1..count.
   */
  function DeleteChoice(nm: map<string, seq<Event>>, name: string, confirmed: bool, choice: int): (i: int)
    requires Lower(name) in nm && |nm[Lower(name)]| > 1 ==> 1 <= choice <= |nm[Lower(name)]|
    ensures i == -1 || (Lower(name) in nm && 0 <= i < |nm[Lower(name)]|)
    ensures i == -1 <==> Lower(name) !in nm || |nm[Lower(name)]| == 0 || (|nm[Lower(name)]| == 1 && !confirmed)
    ensures Lower(name) in nm && |nm[Lower(name)]| == 1 && confirmed ==> i == 0
    ensures Lower(name) in nm && |nm[Lower(name)]| > 1 ==> i == choice - 1
  {
    var k := Lower(name);
    if k !in nm || |nm[k]| == 0 then -1
    else if |nm[k]| == 1 then (if confirmed then 0 else -1)
    else choice - 1
  }

  /**
   * One choice of updateEvent's attribute menu: 1 a new date, 2 new notes, 3 a
   * new reminder, 4 a new frequency; 5 and any other number change nothing.
   */
  datatype Edit = NewDate(date: Date) | NewNotes(notes: string) | NewReminder(reminder: int) | NewFrequency(frequency: Frequency) | NoEdit

  /** The attributes updateEvent can change (the name is not among them). */
  datatype Attributes = Attributes(date: Date, notes: string, reminder: int, frequency: Frequency)

  function AttributesOf(e: Event): Attributes
    reads e
  {
    Attributes(e.date, e.notes, e.reminder, e.frequency)
  }

  /** What one menu choice does to the attributes. */
  function Edited(a: Attributes, edit: Edit): Attributes {
    match edit
    case NewDate(date) => a.(date := date)
    case NewNotes(notes) => a.(notes := notes)
    case NewReminder(reminder) => a.(reminder := reminder)
    case NewFrequency(frequency) => a.(frequency := frequency)
    case NoEdit => a
  }

  /** The attributes after a run of menu choices, the last one applied last. */
  function AfterEdits(a: Attributes, edits: seq<Edit>): Attributes
    decreases |edits|
  {
    if edits == [] then a else Edited(AfterEdits(a, edits[..|edits| - 1]), edits[|edits| - 1])
  }

  lemma AfterEditsStep(a: Attributes, edits: seq<Edit>, i: int)
    requires 0 <= i < |edits|
    ensures AfterEdits(a, edits[..i + 1]) == Edited(AfterEdits(a, edits[..i]), edits[i])
  {
    assert edits[..i + 1][..i] == edits[..i];
  }

  /** What the early-exit scan of a queue keeps for the queried month. */
  function Kept(b: seq<Event>, month: int, year: int): seq<Event>
    reads b`date
  {
    b[..LeadingOccurring(DatesOf(b), month, year)]
  }

  class EventStore {
    var nameMap: map<string, seq<Event>>
    var nonRecurringEvents: map<string, seq<Event>>
    var dailyEvents: seq<Event>
    var weeklyEvents: seq<Event>
    var monthlyEvents: seq<Event>
    var yearlyEvents: map<int, seq<Event>>
    /** The events added and not deleted. */
    ghost var stored: set<Event>

    function Frequencies(): Index
      reads this`nonRecurringEvents, this`dailyEvents, this`weeklyEvents, this`monthlyEvents, this`yearlyEvents
    {
      Index(nonRecurringEvents, dailyEvents, weeklyEvents, monthlyEvents, yearlyEvents)
    }

    ghost predicate Valid()
      reads this`nameMap, this`nonRecurringEvents, this`dailyEvents, this`weeklyEvents, this`monthlyEvents, this`yearlyEvents
      reads this`stored, stored`name, stored`frequency, stored`date
    {
      NameIndexed(nameMap, stored) && FrequencyIndexed(Frequencies(), stored)
    }

    /** initializeMaps: empty maps and queues, and one empty yearly queue per month. */
    constructor ()
      ensures nameMap == map[] && Frequencies() == Initial() && stored == {}
      ensures Valid()
    {
      nameMap := map[];
      nonRecurringEvents := map[];
      dailyEvents := [];
      weeklyEvents := [];
      monthlyEvents := [];
      var yearly: map<int, seq<Event>> := map[];
      for month := 0 to 12
        invariant yearly == MonthQueues(month)
      {
        yearly := yearly[month := []];
      }
      yearlyEvents := yearly;
      stored := {};
      new;
      InitialIndexed();
    }

    /** addToFrequencyMaps: files e in the bucket its frequency and date choose. */
    method AddToFrequencyMaps(e: Event)
      requires e.frequency == YEARLY ==> e.date.month0 in yearlyEvents
      modifies this`nonRecurringEvents, this`dailyEvents, this`weeklyEvents, this`monthlyEvents, this`yearlyEvents
      ensures Frequencies() == Filed(old(Frequencies()), e, e.frequency, e.date)
      ensures unchanged(this`nameMap, this`stored)
    {
      var date := e.GetDate();
      var frequency := e.GetFrequency();
      match frequency
      case DAILY =>
        dailyEvents := InsertByDate(dailyEvents, e, date);
        FiledInStore(this, e, DailySlot);
      case WEEKLY =>
        weeklyEvents := InsertByDate(weeklyEvents, e, date);
        FiledInStore(this, e, WeeklySlot);
      case MONTHLY =>
        monthlyEvents := InsertByDate(monthlyEvents, e, date);
        FiledInStore(this, e, MonthlySlot);
      case YEARLY =>
        yearlyEvents := yearlyEvents[date.month0 := InsertByDate(yearlyEvents[date.month0], e, date)];
        FiledInStore(this, e, YearlySlot(date.month0));
      case NONE =>
        var key := MonthYearKey(date.month0, date.year);
        if key in nonRecurringEvents {
          nonRecurringEvents := nonRecurringEvents[key := nonRecurringEvents[key] + [e]];
        } else {
          assert Bucket(old(Frequencies()), OnceSlot(key)) + [e] == [e];
          nonRecurringEvents := nonRecurringEvents[key := [e]];
        }
        FiledInStore(this, e, OnceSlot(key));
    }

    /**
     * deleteEventFromFrequencyMaps: removes e from the bucket its current
     * frequency and date choose; a missing key ends in a NullPointerException.
     */
    method DeleteEventFromFrequencyMaps(e: Event) returns (status: Status)
      modifies this`nonRecurringEvents, this`dailyEvents, this`weeklyEvents, this`monthlyEvents, this`yearlyEvents
      ensures status == Done <==> old(CanUnfile(Frequencies(), e.frequency, e.date))
      ensures status == Done ==> Frequencies() == old(Unfiled(Frequencies(), e, e.frequency, e.date))
      ensures status == NullPointer ==> Frequencies() == old(Frequencies())
      ensures unchanged(this`nameMap, this`stored)
    {
      ghost var ix := Frequencies();
      var date := e.GetDate();
      var frequency := e.GetFrequency();
      if CanUnfile(ix, frequency, date) {
        UnfiledFields(ix, e, frequency, date);
      }
      status := Done;
      match frequency
      case DAILY =>
        dailyEvents := RemoveFirst(dailyEvents, e);
      case WEEKLY =>
        weeklyEvents := RemoveFirst(weeklyEvents, e);
      case MONTHLY =>
        monthlyEvents := RemoveFirst(monthlyEvents, e);
      case YEARLY =>
        if date.month0 in yearlyEvents {
          yearlyEvents := yearlyEvents[date.month0 := RemoveFirst(yearlyEvents[date.month0], e)];
        } else {
          status := NullPointer;
        }
      case NONE =>
        var key := MonthYearKey(date.month0, date.year);
        if key in nonRecurringEvents {
          nonRecurringEvents := nonRecurringEvents[key := RemoveFirst(nonRecurringEvents[key], e)];
        } else {
          status := NullPointer;
        }
    }

    /** addToMaps: lists e under its lower-cased name, then files it by frequency. */
    method AddToMaps(e: Event)
      requires e.frequency == YEARLY ==> e.date.month0 in yearlyEvents
      modifies this`nameMap, this`nonRecurringEvents, this`dailyEvents, this`weeklyEvents, this`monthlyEvents, this`yearlyEvents, this`stored
      ensures nameMap == old(Named(nameMap, e, e.name))
      ensures Frequencies() == Filed(old(Frequencies()), e, e.frequency, e.date)
      ensures stored == old(stored) + {e}
      ensures old(Valid()) && e !in old(stored) ==> Valid()
    {
      stored := stored + {e};
      var name := e.GetName();
      var key := Lower(name);
      if key in nameMap {
        nameMap := nameMap[key := nameMap[key] + [e]];
      } else {
        nameMap := nameMap[key := [e]];
      }
      AddToFrequencyMaps(e);
      assert nameMap == old(Named(nameMap, e, e.name));
      assert Frequencies() == Filed(old(Frequencies()), e, e.frequency, e.date);
      if old(Valid()) && e !in old(stored) {
        AddedKeepsValid(this, e);
      }
    }

    /**
     * deleteEvent, after the name has been looked up: the only event of that
     * name is deleted on confirmation, with its key; of several, the one at
     * position choice (1-based, as the selection loop accepted it) is taken
     * out of the list. Either way the event then leaves its frequency bucket.
     */
    method DeleteEvent(name: string, confirmed: bool, choice: int) returns (status: Status)
      requires Lower(name) in nameMap && |nameMap[Lower(name)]| > 1 ==> 1 <= choice <= |nameMap[Lower(name)]|
      modifies this`nameMap, this`nonRecurringEvents, this`dailyEvents, this`weeklyEvents, this`monthlyEvents, this`yearlyEvents, this`stored
      ensures var i := DeleteChoice(old(nameMap), name, confirmed, choice);
        i == -1 ==> status == Done && unchanged(this)
      ensures var i := DeleteChoice(old(nameMap), name, confirmed, choice);
        i != -1 ==>
          var e := old(nameMap)[Lower(name)][i];
          && nameMap == old(if |nameMap[Lower(name)]| == 1 then nameMap - {Lower(e.name)} else UnnamedAt(nameMap, Lower(name), i))
          && stored == old(stored) - {e}
          && (status == Done <==> old(CanUnfile(Frequencies(), e.frequency, e.date)))
          && (status == Done ==> Frequencies() == old(Unfiled(Frequencies(), e, e.frequency, e.date)))
          && (status == NullPointer ==> Frequencies() == old(Frequencies()))
      ensures old(Valid()) ==> Valid() && status == Done
    {
      status := Done;
      var key := Lower(name);
      if key !in nameMap {
        return;
      }
      var eventCount := |nameMap[key]|;
      var index := -1;
      if eventCount == 1 {
        if confirmed {
          index := 0;
        }
      } else if eventCount > 1 {
        index := choice - 1;
      }
      assert index == DeleteChoice(nameMap, name, confirmed, choice);
      if index == -1 {
        return;
      }
      status := DeleteListed(key, index);
    }

    /**
     * The two deletion paths of deleteEvent once an event is picked: the only
     * event of its name takes the key with it, one of several is cut out of
     * the list; then it leaves its frequency bucket.
     */
    method DeleteListed(key: string, index: int) returns (status: Status)
      requires key in nameMap && 0 <= index < |nameMap[key]|
      modifies this`nameMap, this`nonRecurringEvents, this`dailyEvents, this`weeklyEvents, this`monthlyEvents, this`yearlyEvents, this`stored
      ensures var e := old(nameMap[key][index]);
        && nameMap == old(if |nameMap[key]| == 1 then nameMap - {Lower(e.name)} else UnnamedAt(nameMap, key, index))
        && stored == old(stored) - {e}
        && (status == Done <==> old(CanUnfile(Frequencies(), e.frequency, e.date)))
        && (status == Done ==> Frequencies() == old(Unfiled(Frequencies(), e, e.frequency, e.date)))
        && (status == NullPointer ==> Frequencies() == old(Frequencies()))
      ensures old(Valid()) ==> Valid() && status == Done
    {
      var eventList := nameMap[key];
      var event := eventList[index];
      if |eventList| == 1 {
        var eventName := event.GetName();
        nameMap := nameMap - {Lower(eventName)};
      } else {
        nameMap := nameMap[key := Without(eventList, index)];
      }
      status := DeleteEventFromFrequencyMaps(event);
      stored := stored - {event};
      if old(Valid()) {
        DeletedKeepsValid(this, key, index);
      }
    }

    /**
     * The frequency branch of updateEvent: a different frequency takes e out
     * of the bucket of the old one and files it under the new one; the same
     * frequency is only written back.
     */
    method UpdateFrequency(e: Event, frequency: Frequency) returns (status: Status)
      requires frequency == YEARLY ==> e.date.month0 in yearlyEvents
      modifies this`nonRecurringEvents, this`dailyEvents, this`weeklyEvents, this`monthlyEvents, this`yearlyEvents, e`frequency
      ensures old(e.frequency) == frequency ==> status == Done && e.frequency == frequency && Frequencies() == old(Frequencies())
      ensures old(e.frequency) != frequency ==> (status == Done <==> old(CanUnfile(Frequencies(), e.frequency, e.date)))
      ensures old(e.frequency) != frequency && status == Done ==>
        e.frequency == frequency
        && Frequencies() == Filed(old(Unfiled(Frequencies(), e, e.frequency, e.date)), e, frequency, e.date)
      ensures status == NullPointer ==> e.frequency == old(e.frequency) && Frequencies() == old(Frequencies())
      ensures old(Valid()) && e in old(stored) ==> Valid() && status == Done
    {
      ghost var wasValid := Valid();
      ghost var wasStored := e in stored;
      var current := e.GetFrequency();
      if current != frequency {
        status := MoveToFrequency(e, frequency);
        if wasValid && wasStored {
          RefiledKeepsValid(this, e);
        }
      } else {
        e.SetFrequency(frequency);
        status := Done;
        if wasValid {
          StillValid(this);
        }
      }
    }

    /** The three steps of the frequency branch: out of the old bucket, the new frequency written, into the new bucket. */
    method MoveToFrequency(e: Event, frequency: Frequency) returns (status: Status)
      requires frequency == YEARLY ==> e.date.month0 in yearlyEvents
      modifies this`nonRecurringEvents, this`dailyEvents, this`weeklyEvents, this`monthlyEvents, this`yearlyEvents, e`frequency
      ensures status == Done <==> old(CanUnfile(Frequencies(), e.frequency, e.date))
      ensures status == Done ==>
        e.frequency == frequency
        && Frequencies() == Filed(old(Unfiled(Frequencies(), e, e.frequency, e.date)), e, frequency, e.date)
      ensures status == NullPointer ==> e.frequency == old(e.frequency) && Frequencies() == old(Frequencies())
      ensures unchanged(this`nameMap, this`stored)
    {
      status := DeleteEventFromFrequencyMaps(e);
      if status == Done {
        e.SetFrequency(frequency);
        AddToFrequencyMaps(e);
      }
    }

    /**
     * Changing an event's date the way the frequency branch changes its
     * frequency: out of the bucket the old date chose, into the one the new
     * date chooses.
     */
    method UpdateDate(e: Event, date: Date) returns (status: Status)
      requires e.frequency == YEARLY ==> date.month0 in yearlyEvents
      modifies this`nonRecurringEvents, this`dailyEvents, this`weeklyEvents, this`monthlyEvents, this`yearlyEvents, e`date
      ensures status == Done <==> old(CanUnfile(Frequencies(), e.frequency, e.date))
      ensures status == Done ==>
        e.date == date
        && Frequencies() == Filed(old(Unfiled(Frequencies(), e, e.frequency, e.date)), e, e.frequency, date)
      ensures status == NullPointer ==> e.date == old(e.date) && Frequencies() == old(Frequencies())
      ensures old(Valid()) && e in old(stored) ==> Valid() && status == Done
    {
      ghost var valid := Valid() && e in stored;
      status := MoveToDate(e, date);
      if valid {
        RefiledKeepsValid(this, e);
      }
    }

    /** The three steps of the date change: out of the old bucket, the new date written, into the bucket it chooses. */
    method MoveToDate(e: Event, date: Date) returns (status: Status)
      requires e.frequency == YEARLY ==> date.month0 in yearlyEvents
      modifies this`nonRecurringEvents, this`dailyEvents, this`weeklyEvents, this`monthlyEvents, this`yearlyEvents, e`date
      ensures status == Done <==> old(CanUnfile(Frequencies(), e.frequency, e.date))
      ensures status == Done ==>
        e.date == date
        && Frequencies() == Filed(old(Unfiled(Frequencies(), e, e.frequency, e.date)), e, e.frequency, e.date)
      ensures status == NullPointer ==> e.date == old(e.date) && Frequencies() == old(Frequencies())
      ensures unchanged(this`nameMap, this`stored) && unchanged(e`frequency, e`name)
      ensures unchanged(old(stored) - {e})
    {
      status := DeleteEventFromFrequencyMaps(e);
      if status == Done {
        e.SetDate(date);
        AddToFrequencyMaps(e);
      }
    }

    /**
     * One pass of updateEvent's loop as the program runs it: the chosen
     * attribute is overwritten. A different frequency moves the event to the
     * bucket it chooses; a new date is only written into the event, which
     * stays in the bucket its old date chose.
     */
    method ApplyEdit(e: Event, edit: Edit) returns (status: Status)
      requires YearlyReady(Frequencies())
      modifies this`nonRecurringEvents, this`dailyEvents, this`weeklyEvents, this`monthlyEvents, this`yearlyEvents
      modifies e`date, e`notes, e`reminder, e`frequency
      ensures status == Done ==> AttributesOf(e) == Edited(old(AttributesOf(e)), edit)
      ensures !edit.NewFrequency? ==> status == Done && Frequencies() == old(Frequencies())
      ensures old(Valid()) && e in old(stored) && !edit.NewDate? ==> Valid() && status == Done
    {
      match edit
      case NewDate(date) =>
        e.SetDate(date);
        status := Done;
      case NewNotes(notes) =>
        status := SetUnindexed(e, edit);
      case NewReminder(reminder) =>
        status := SetUnindexed(e, edit);
      case NewFrequency(frequency) =>
        status := UpdateFrequency(e, frequency);
      case NoEdit =>
        status := Done;
        if old(Valid()) {
          StillValid(this);
        }
    }

    /**
     * One pass of updateEvent's loop with a new date re-filed the way a new
     * frequency is: out of the bucket the old date chose, into the one the
     * new date chooses. A stored event then never leaves the index behind.
     */
    method ApplyEditRefiling(e: Event, edit: Edit) returns (status: Status)
      requires YearlyReady(Frequencies())
      modifies this`nonRecurringEvents, this`dailyEvents, this`weeklyEvents, this`monthlyEvents, this`yearlyEvents
      modifies e`date, e`notes, e`reminder, e`frequency
      ensures status == Done ==> AttributesOf(e) == Edited(old(AttributesOf(e)), edit)
      ensures old(Valid()) && e in old(stored) ==> Valid() && status == Done
    {
      match edit
      case NewDate(date) =>
        status := UpdateDate(e, date);
      case NewNotes(notes) =>
        status := SetUnindexed(e, edit);
      case NewReminder(reminder) =>
        status := SetUnindexed(e, edit);
      case NewFrequency(frequency) =>
        status := UpdateFrequency(e, frequency);
      case NoEdit =>
        status := Done;
        if old(Valid()) {
          StillValid(this);
        }
    }

    /** New notes or a new reminder: written into the event; no index looks at them. */
    method SetUnindexed(e: Event, edit: Edit) returns (status: Status)
      requires edit.NewNotes? || edit.NewReminder?
      modifies e`notes, e`reminder
      ensures status == Done && AttributesOf(e) == Edited(old(AttributesOf(e)), edit)
      ensures old(Valid()) ==> Valid()
    {
      ghost var valid := Valid();
      if edit.NewNotes? {
        e.SetNotes(edit.notes);
      } else {
        e.SetReminder(edit.reminder);
      }
      status := Done;
      if valid {
        StillValid(this);
      }
    }

    /**
     * updateEvent(Event): the user's choices, one per pass, applied until
     * done; the loop asks before it tests, so there is at least one pass. A
     * new date is re-filed, so the index stays consistent throughout.
     */
    method UpdateEvent(e: Event, edits: seq<Edit>) returns (status: Status)
      requires Valid() && e in stored
      requires |edits| >= 1
      modifies this`nonRecurringEvents, this`dailyEvents, this`weeklyEvents, this`monthlyEvents, this`yearlyEvents
      modifies e`date, e`notes, e`reminder, e`frequency
      ensures Valid() && status == Done
      ensures AttributesOf(e) == AfterEdits(old(AttributesOf(e)), edits)
      ensures e.name == old(e.name)
    {
      status := Done;
      ghost var before := AttributesOf(e);
      for i := 0 to |edits|
        invariant Valid() && e in stored && status == Done
        invariant AttributesOf(e) == AfterEdits(before, edits[..i])
      {
        AfterEditsStep(before, edits, i);
        assert YearlyReady(Frequencies());
        status := ApplyEditRefiling(e, edits[i]);
      }
      assert edits[..|edits|] == edits;
    }

    /**
     * listEvents: the days to mark in the queried month, and the events it
     * shows, in the order it shows them (non-recurring, yearly, monthly,
     * weekly, daily). It changes nothing; the contract reads the store as the
     * call found it.
     */
    method ListEvents(month: int, year: int) returns (daysToMark: seq<int>, shown: seq<Event>)
      requires month in yearlyEvents
      ensures daysToMark == DaysToMark(
        DatesOf(Bucket(Frequencies(), OnceSlot(MonthYearKey(month, year)))),
        DatesOf(yearlyEvents[month]), DatesOf(monthlyEvents), month, year)
      ensures shown ==
        Bucket(Frequencies(), OnceSlot(MonthYearKey(month, year)))
        + Kept(yearlyEvents[month], month, year)
        + Kept(monthlyEvents, month, year)
        + Kept(weeklyEvents, month, year)
        + Kept(dailyEvents, month, year)
    {
      var key := MonthYearKey(month, year);
      var once: seq<Event> := [];
      if key in nonRecurringEvents {
        once := nonRecurringEvents[key];
      }
      assert once == Bucket(Frequencies(), OnceSlot(key));
      daysToMark, shown := ListBuckets(once, yearlyEvents[month], monthlyEvents, weeklyEvents, dailyEvents, month, year);
    }
  }

  /**
   * What a date change through ApplyEdit leaves behind, for a non-recurring
   * event: filed under "201410" (November 2014) and then dated December 2014,
   * it is not where its own date points, and "201411" is absent, so a later
   * frequency change or delete looks it up there and throws.
   */
  lemma SetDateStrandsOnceEvent(e: Event)
    requires e.frequency == NONE && e.date == Date(2014, 11, 24, 13, 0)
    ensures var ix := Filed(Initial(), e, NONE, Date(2014, 10, 24, 13, 0));
      && !FrequencyIndexed(ix, {e})
      && e !in Bucket(ix, SlotOf(e.frequency, e.date))
      && !CanUnfile(ix, e.frequency, e.date)
  {
    var nov := Date(2014, 10, 24, 13, 0);
    var k10, k11 := MonthYearKey(10, 2014), MonthYearKey(11, 2014);
    assert k10 != k11 by {
      if k10 == k11 {
        KeyInjective(10, 2014, 11, 2014);
      }
    }
    FiledIntoInitial(e, NONE, nov);
    var ix := Filed(Initial(), e, NONE, nov);
    assert ix.nonRecurring == map[k10 := [e]];
    assert k11 !in ix.nonRecurring;
    assert SlotOf(e.frequency, e.date) == OnceSlot(k11);
    assert Bucket(ix, OnceSlot(k11)) == [];
    StrandedNotIndexed(ix, {e}, e);
  }

  /**
   * The same for a yearly event: filed in June's queue on the 6th and then
   * dated August 20th, unfiling looks in August's queue and removes nothing.
   * The same object stays in June's queue, so June marks its new day, the
   * 20th, and only from 2015 on: in June 2014 the August date has not begun.
   */
  lemma SetDateStrandsYearlyEvent(e: Event)
    requires e.frequency == YEARLY && e.date == Date(2014, 7, 20, 13, 0)
    ensures var ix := Filed(Initial(), e, YEARLY, Date(2014, 5, 6, 13, 0));
      && !FrequencyIndexed(ix, {e})
      && Unfiled(ix, e, e.frequency, e.date) == ix
      && DaysToMark([], DatesOf(ix.yearly[5]), [], 5, 2015) == [20]
      && DaysToMark([], DatesOf(ix.yearly[5]), [], 5, 2014) == []
  {
    var june := Date(2014, 5, 6, 13, 0);
    FiledIntoInitial(e, YEARLY, june);
    var ix := Filed(Initial(), e, YEARLY, june);
    assert Bucket(ix, YearlySlot(7)) == [];
    StrandedNotIndexed(ix, {e}, e);
    UnfiledFields(ix, e, YEARLY, e.date);
    assert RemoveFirst([], e) == [];
    assert ix.yearly[7 := []] == ix.yearly;
    var ds := DatesOf(ix.yearly[5]);
    assert ds == [e.date];
    assert LeadingOccurring(ds, 5, 2015) == 1;
    assert LeadingOccurring(ds, 5, 2014) == 0;
    assert ds[..1] == ds;
  }

  /** The bucket a store method has just replaced is the one filing e produces. */
  twostate lemma FiledInStore(s: EventStore, new e: Event, new slot: Slot)
    requires old(allocated(e))
    requires slot == SlotOf(e.frequency, e.date) && unchanged(e)
    requires unchanged(old(Bucket(s.Frequencies(), slot))`date)
    requires s.Frequencies() == WithBucket(old(s.Frequencies()), slot,
      if e.frequency == NONE then old(Bucket(s.Frequencies(), slot)) + [e] else old(InsertByDate(Bucket(s.Frequencies(), slot), e, e.date)))
    ensures s.Frequencies() == Filed(old(s.Frequencies()), e, e.frequency, e.date)
  {
    var ix := old(s.Frequencies());
    assert Filed(ix, e, e.frequency, e.date) == WithBucket(ix, slot,
      if e.frequency == NONE then Bucket(ix, slot) + [e] else InsertByDate(Bucket(ix, slot), e, e.date));
    FiledFrame(ix, e, e.frequency, e.date);
  }

  /** Adding an event the store did not hold keeps both indexes consistent. */
  twostate lemma AddedKeepsValid(s: EventStore, new e: Event)
    requires old(allocated(e))
    requires old(s.Valid()) && e !in old(s.stored)
    requires unchanged(old(s.stored) + {e})
    requires s.nameMap == old(Named(s.nameMap, e, e.name))
    requires s.Frequencies() == Filed(old(s.Frequencies()), e, e.frequency, e.date)
    requires s.stored == old(s.stored) + {e}
    ensures s.Valid()
  {
    var R, nm, ix := old(s.stored), old(s.nameMap), old(s.Frequencies());
    NameIndexedFrame(nm, R);
    NamedKeepsIndexed(nm, R, e);
    FrequencyIndexedFrame(ix, R);
    FiledKeepsIndexed(ix, R, e);
  }

  /**
   * Deleting the i-th event listed under k keeps the invariant; the event is
   * stored, so its bucket is there to take it out of.
   */
  twostate lemma DeletedKeepsValid(s: EventStore, new k: string, new i: int)
    requires old(s.Valid())
    requires old(k in s.nameMap && 0 <= i < |s.nameMap[k]|)
    requires unchanged(old(s.stored))
    requires var e := old(s.nameMap[k][i]);
      && s.nameMap == old(if |s.nameMap[k]| == 1 then s.nameMap - {Lower(e.name)} else UnnamedAt(s.nameMap, k, i))
      && s.stored == old(s.stored) - {e}
      && (old(CanUnfile(s.Frequencies(), e.frequency, e.date)) ==> s.Frequencies() == old(Unfiled(s.Frequencies(), e, e.frequency, e.date)))
    ensures var e := old(s.nameMap[k][i]); old(CanUnfile(s.Frequencies(), e.frequency, e.date))
    ensures s.Valid()
  {
    var R, nm, ix := old(s.stored), old(s.nameMap), old(s.Frequencies());
    var e := nm[k][i];
    assert e in nm[k];
    NameIndexedFrame(nm, R);
    UnnamedKeepsIndexed(nm, R, k, i);
    FrequencyIndexedFrame(ix, R);
    UnfiledKeepsIndexed(ix, R, e);
  }

  /**
   * Filing e again after it was unfiled keeps the invariant, whatever new
   * frequency or date it carries now.
   */
  twostate lemma RefiledKeepsValid(s: EventStore, new e: Event)
    requires old(allocated(e))
    requires old(s.Valid()) && e in old(s.stored)
    requires unchanged(old(s.stored) - {e}) && unchanged(e`name)
    requires unchanged(s`nameMap, s`stored)
    requires old(CanUnfile(s.Frequencies(), e.frequency, e.date)) ==>
      s.Frequencies() == Filed(old(Unfiled(s.Frequencies(), e, e.frequency, e.date)), e, e.frequency, e.date)
    ensures old(CanUnfile(s.Frequencies(), e.frequency, e.date))
    ensures s.Valid()
  {
    var R, nm, ix := old(s.stored), old(s.nameMap), old(s.Frequencies());
    NameIndexedFrame(nm, R);
    UnfiledStaysIndexed(ix, R, e);
    var u := old(Unfiled(s.Frequencies(), e, e.frequency, e.date));
    FiledKeepsIndexed(u, R - {e}, e);
    PutBack(R, e);
  }

  lemma PutBack(R: set<Event>, e: Event)
    requires e in R
    ensures R - {e} + {e} == R
  {
  }

  /** A step that leaves the name map, the buckets, the stored set and every stored event's fields as they were keeps the invariant. */
  twostate lemma StillValid(s: EventStore)
    requires old(s.Valid())
    requires unchanged(old(s.stored)`name, old(s.stored)`frequency, old(s.stored)`date)
    requires s.nameMap == old(s.nameMap) && s.stored == old(s.stored) && s.Frequencies() == old(s.Frequencies())
    ensures s.Valid()
  {
    NameIndexedFrame(s.nameMap, s.stored);
    FrequencyIndexedFrame(s.Frequencies(), s.stored);
  }

  /**
   * The five scans of listEvents over the buckets it reads: every event of
   * the month's non-recurring bucket, then the leading run of each recurring
   * queue that occurs in the month; only the first three contribute days.
   */
  method ListBuckets(once: seq<Event>, yearly: seq<Event>, monthly: seq<Event>,
                     weekly: seq<Event>, daily: seq<Event>, month: int, year: int)
    returns (daysToMark: seq<int>, shown: seq<Event>)
    ensures daysToMark == DaysToMark(DatesOf(once), DatesOf(yearly), DatesOf(monthly), month, year)
    ensures shown == once + Kept(yearly, month, year) + Kept(monthly, month, year)
                     + Kept(weekly, month, year) + Kept(daily, month, year)
  {
    ghost var od, yd, md, wd, dd := DatesOf(once), DatesOf(yearly), DatesOf(monthly), DatesOf(weekly), DatesOf(daily);
    daysToMark := MarkAll(once, od);
    DatesStay(yearly);
    var yearlyDays, y := ScanBucket(yearly, yd, month, year);
    DatesStay(monthly);
    var monthlyDays, m := ScanBucket(monthly, md, month, year);
    DatesStay(weekly);
    var _, w := ScanBucket(weekly, wd, month, year);
    DatesStay(daily);
    var _, d := ScanBucket(daily, dd, month, year);
    daysToMark := daysToMark + yearlyDays + monthlyDays;
    assert daysToMark == DaysToMark(od, yd, md, month, year);
    DatesStay(once);
    DatesStay(yearly);
    DatesStay(monthly);
    DatesStay(weekly);
    DatesStay(daily);
    shown := once + yearly[..y] + monthly[..m] + weekly[..w] + daily[..d];
  }

  /** A queue none of whose events changed lists the same dates as before. */
  twostate lemma DatesStay(b: seq<Event>)
    requires unchanged(b)
    ensures DatesOf(b) == old(DatesOf(b))
  {
  }

  /** The loop of listEvents over the month's non-recurring events: the day of each, in order. */
  method MarkAll(bucket: seq<Event>, ghost dates: seq<Date>) returns (days: seq<int>)
    requires dates == DatesOf(bucket)
    ensures days == DaysOf(dates)
  {
    days := [];
    for i := 0 to |bucket|
      invariant days == DaysOf(dates[..i])
    {
      DaysOfStep(dates, i);
      days := days + [EventDayOfMonth(bucket[i])];
    }
    assert dates[..|bucket|] == dates;
  }

  /**
   * One early-exit loop of listEvents over a queue, given the dates its events
   * carry: how many leading events occur in the queried month, and their days.
   */
  method ScanBucket(bucket: seq<Event>, ghost dates: seq<Date>, month: int, year: int) returns (days: seq<int>, count: nat)
    requires dates == DatesOf(bucket)
    ensures count == LeadingOccurring(dates, month, year)
    ensures days == DaysOf(dates[..count])
  {
    days := [];
    count := 0;
    while count < |bucket| && OccursInCalendarMonth(bucket[count].date, month, year)
      invariant count <= |bucket|
      invariant forall j :: 0 <= j < count ==> OccursInCalendarMonth(dates[j], month, year)
      invariant days == DaysOf(dates[..count])
    {
      assert dates[count] == bucket[count].date;
      DaysOfStep(dates, count);
      days := days + [EventDayOfMonth(bucket[count])];
      count := count + 1;
    }
    assert count < |bucket| ==> dates[count] == bucket[count].date;
    LeadingOccurringExact(dates, count, month, year);
  }

  /** One more date in the prefix adds its day at the end. */
  lemma DaysOfStep(ds: seq<Date>, k: int)
    requires 0 <= k < |ds|
    ensures DaysOf(ds[..k + 1]) == DaysOf(ds[..k]) + [ds[k].day]
  {
    assert ds[..k + 1] == ds[..k] + [ds[k]];
    DaysOfAppend(ds[..k], ds[k]);
  }

  lemma DaysOfAppend(ds: seq<Date>, d: Date)
    ensures DaysOf(ds + [d]) == DaysOf(ds) + [d.day]
  {
  }
}
