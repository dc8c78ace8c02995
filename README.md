# EventCalendar event store, in Dafny

This project models the core of EventCalendar, a terminal calendar. Events
carry a date, a name, notes, a reminder in minutes and a frequency (daily,
weekly, monthly, yearly or none). The program keeps them in two indexes:

- a **name map** from the lower-cased name to the list of events with that name;
- **frequency buckets**. The daily, weekly and monthly queues are ordered by
  date. There are twelve yearly queues, one per 0-based month. Non-recurring
  events are kept in lists keyed by the `"YYYYMM"` string of their
  (year, month).

The month query lists the events that occur in a calendar month and returns
the days to mark. A recurring event occurs from its anchor month on. The
recurring queues are scanned in date order and the scan stops at the first
event that does not occur. The calendar grid prints the days of the month in
rows of seven and puts a `*` after each marked day.

The model is split into these modules:

| file | module | what it holds |
|---|---|---|
| `dates.dfy` | `Dates` | the abstract date record, `EventDateComparator`'s order, sorted insertion |
| `decimal.dfy` | `Decimal` | decimal digits, Java's `%0Nd` and `%Nd` padding, parsing back |
| `event.dfy` | `Events` | the `Event` class: fields, constructor, `update`, getters, setters, the comparator |
| `utility.dfy` | `Utility` | `makeMonthYearKey` with its inverse, `getEventDayOfMonth` |
| `occurrence.dfy` | `Occurrence` | `eventOccursInCalendarMonth`, the n/p month steps, the early-exit scan, the days to mark |
| `event_index.dfy` | `EventIndex` | the buckets as a value (`Index`), filing and unfiling, the invariant both indexes keep |
| `events_manager.dfy` | `EventsManager` | the store as a class: `initializeMaps`, `addToMaps`, `addToFrequencyMaps`, `deleteEventFromFrequencyMaps`, `deleteEvent`, `updateEvent(Event)`, `listEvents` |
| `events_calendar.dfy` | `EventsCalendar` | `printCalendar`, as a method that builds the printed string |

The static maps and queues of `Event` become the fields of the class
`EventsManager.EventStore`. The methods of that class update the fields in
place. A ghost field `stored` holds the events that were added and not
deleted. `Valid()` is the invariant over the store: every stored event is
listed under its lower-cased name and sits in exactly one bucket, the one its
frequency and date choose. Each bucket holds each event at most once, and the
queues are in date order. The methods are proved against the functions
`Named`, `Filed` and `Unfiled` on the `Index` value. These store methods
prove that they keep `Valid()`: `AddToMaps` (for a new event), `DeleteEvent`
and `DeleteListed`, `UpdateFrequency`, `UpdateDate`, `SetUnindexed`,
`ApplyEditRefiling` and `UpdateEvent` (for a stored event), and `ApplyEdit`
except for a new date, which by design it does not keep (see Findings). The
half-steps `AddToFrequencyMaps`, `DeleteEventFromFrequencyMaps`,
`MoveToFrequency` and `MoveToDate` only state their effect on the buckets;
the invariant holds again once the method that calls them has finished.

Terminal input is replaced by parameters:

- `deleteEvent` takes the typed name, the yes/no answer and the selected
  number;
- `updateEvent(Event)` takes the sequence of menu choices;
- `listEvents` and `printCalendar` return what they would have printed.

## Model

| member | source | states |
|---|---|---|
| Events.Event.constructor | src/Event.java:59-67 | the five fields hold the five arguments |
| Events.Event.Update | src/Event.java:72-80 | all five fields are overwritten with the arguments; the indexes are not touched |
| Events.Event.SetDate | src/Event.java:131-133 | the date is the argument and no other field changes |
| Events.Event.SetName | src/Event.java:138-140 | the name is the argument and no other field changes |
| Events.Event.SetNotes | src/Event.java:145-147 | the notes are the argument and no other field changes |
| Events.Event.SetReminder | src/Event.java:152-154 | the reminder is the argument and no other field changes |
| Events.Event.SetFrequency | src/Event.java:159-161 | the frequency is the argument and no other field changes |
| Events.CompareByDate | src/Event.java:169-174 | the result is negative, zero or positive exactly when the first date is before, equal to or after the second, and it is one of -1, 0, 1 |
| Dates.Compare | src/Event.java:172 | definition of the comparator: -1, 0 or 1 as the first date's instant is below, equal to or above the second's (no contract of its own; `CompareSign` proves its sign is the lexicographic date order) |
| Dates.InstantOrder | src/Event.java:172 | comparing the dates' instants is the lexicographic order on (year, month, day, hour, minute), and equal instants mean equal dates |
| Dates.CompareSign | src/Event.java:169-174 | the comparator's sign is the lexicographic date order, and swapping the arguments negates it |
| Dates.NotAfterTotalPreorder | src/Event.java:169-174 | "not after" is reflexive, total, transitive and antisymmetric on dates |
| Dates.InsertionPoint | src/EventsManager.java:150-159 | the point of insertion follows every date not after the new one and precedes the first later one |
| Dates.InsertKeepsSorted | src/EventsManager.java:150-159 | inserting at that point keeps a sorted sequence of dates sorted |
| EventsManager.EventStore.constructor | src/Event.java:37-51 | after initializeMaps the name map, the non-recurring map and the three queues are empty, there are exactly twelve empty yearly queues keyed 0..11, and the store is valid |
| EventIndex.MonthQueues | src/Event.java:47-49 | after n rounds of the loop, the yearly map has exactly the keys 0..n-1, each mapped to an empty queue |
| EventIndex.InitialIndexed | src/Event.java:37-51 | the empty index with twelve yearly queues satisfies the invariant for no stored events, and every bucket is empty |
| Utility.MonthYearKey | src/Utility.java:20-23 | definition of `makeMonthYearKey`: the year in `%04d`, then the 0-based month in `%02d` (no contract of its own; `KeyRoundTrip`, `KeyInjective` and `KeySixDigits` prove what the key promises) |
| Utility.KeyRoundTrip | src/Utility.java:20-23 | for months 0..99 and years from 0 on, the key is a digit string and parsing it gives back the (month, year) |
| Utility.KeyInjective | src/Utility.java:20-23 | two (month, year) pairs in that range never share a key |
| Utility.KeySixDigits | src/Utility.java:20-23 | for years 0..9999 and months 0..99, the key is exactly six decimal digits |
| Utility.MonthFieldWidth | src/Utility.java:22 | a month in 0..99 fills its two-digit field exactly, with digits |
| Utility.SeedDataKeys | src/EventsManager.java:580-581 | months are 0-based: November 2014 is "201410" and October 2014 is "201409" |
| Decimal.ZeroPadded | src/Utility.java:22 | definition of Java's `%0Nd`: a minus sign for negatives, then zeros up to the width (no contract of its own; `ZeroPaddedRoundTrip` proves it reads back) |
| Decimal.ZeroPaddedRoundTrip | src/Utility.java:22 | `%0Nd` of a non-negative number reads back as that number, for every width |
| Decimal.ParsePadded | src/Utility.java:22 | zero-padding the digits of n to any width does not change the value read back |
| Decimal.DigitsLength | src/Utility.java:22 | a number below 10^width has at most width digits |
| Decimal.PadLeftShape | src/Utility.java:22 | padding reaches the width, keeps the number's text as the tail and fills the front with the pad character |
| Utility.EventDayOfMonth | src/Utility.java:238-242 | the result is the day of the event's date, in 1..31 |
| Occurrence.OccursInCalendarMonth | src/EventsManager.java:440-450 | definition of `eventOccursInCalendarMonth`: a later year never, the same year from the anchor month on, an earlier year always (no contract of its own; the four lemmas below prove its meaning) |
| Occurrence.OccursIffAnchorNotLater | src/EventsManager.java:440-450 | the predicate holds exactly when the event's (year, month) is not after the queried (year, month) |
| Occurrence.OccursMonotone | src/EventsManager.java:440-450 | an event that occurs in a month occurs in every later month |
| Occurrence.OccursFromAnchorMonth | src/EventsManager.java:440-450 | an event occurs in its own anchor month and not in the month before |
| Occurrence.OccursDownward | src/EventsManager.java:440-450 | a date not after a date that occurs also occurs, so the test is monotone along the bucket order |
| Occurrence.NextMonth | src/EventsManager.java:326-333 | definition of the 'n' key: December wraps to January of the next year (no contract of its own; `NavigationSteps` and `NavigationRoundTrip` prove it) |
| Occurrence.PreviousMonth | src/EventsManager.java:334-341 | definition of the 'p' key: January wraps to December of the previous year (no contract of its own; proved with `NextMonth`) |
| Occurrence.NavigationSteps | src/EventsManager.java:326-341 | 'n' moves exactly one month forward and 'p' exactly one month back, with December/January wrapping into the next or previous year; the month stays in 0..11 |
| Occurrence.NavigationRoundTrip | src/EventsManager.java:326-341 | 'n' then 'p', and 'p' then 'n', come back to the same month and year |
| Occurrence.LeadingOccurring | src/EventsManager.java:378-389 | the scan keeps a prefix whose dates all occur, stopped at the end or at a date that does not occur |
| Occurrence.LeadingOccurringExact | src/EventsManager.java:378-389 | any prefix of occurring dates that ends at the end or at a non-occurring date is that prefix |
| Occurrence.SortedScanIsFilter | src/EventsManager.java:378-432 | on a date-sorted bucket the early-exit prefix equals filtering the whole bucket with the predicate |
| Occurrence.FilterNone | src/EventsManager.java:378-432 | filtering dates none of which occur gives nothing |
| Occurrence.DaysOf | src/EventsManager.java:367 | one day per event, in order, each the event's day of month |
| Occurrence.DaysToMark | src/EventsManager.java:358-433 | definition of the days `listEvents` marks: every non-recurring day of the key, then the leading occurring runs of the month's yearly queue and of the monthly queue (no contract of its own; `MarkedDayCharacterised` proves which days these are) |
| Occurrence.MarkedDayCharacterised | src/EventsManager.java:358-433 | with sorted queues, a day is marked exactly when a non-recurring event of the key, or an occurring yearly or monthly event, falls on it |
| EventIndex.SlotDetermines | src/EventsManager.java:142-177 | the bucket determines the frequency, and with it the month of a yearly event and the (month, year) of a non-recurring one, so no two kinds share a bucket |
| EventIndex.WithBucket | src/EventsManager.java:142-177 | replacing one bucket changes that bucket only; the map keys grow by at most that bucket's key |
| EventIndex.DatesOf | src/Event.java:169-174 | the dates the comparator sees, one per event, in order |
| EventIndex.IndexOf | src/EventsManager.java:270 | remove(Object) finds the first element identical to its argument |
| EventIndex.Without | src/EventsManager.java:249 | list removal by position drops exactly that element and moves the rest up |
| EventIndex.WithoutMembers | src/EventsManager.java:249 | on a list without repeats, removal by position takes out exactly that event and keeps no repeats |
| EventIndex.RemoveFirst | src/EventsManager.java:270-284 | remove(Object) leaves the sequence alone when the event is absent and otherwise shortens it by one |
| EventIndex.RemoveFirstCounts | src/EventsManager.java:270-284 | remove(Object) takes away exactly one copy of the event when there is one |
| EventIndex.InsertByDate | src/EventsManager.java:150-159 | a queue add makes the queue one longer |
| EventIndex.InsertByDateCounts | src/EventsManager.java:150-159 | a queue add adds exactly one copy of the event |
| EventIndex.InsertByDateSorted | src/EventsManager.java:150-159 | a queue add keeps the queue in date order |
| EventIndex.InsertByDateMembers | src/EventsManager.java:150-159 | a queue add of a new event keeps the queue free of repeats and adds only that event |
| EventIndex.AppendMembers | src/EventsManager.java:164-171 | appending a new event to a non-recurring list keeps it free of repeats |
| EventIndex.WithoutSorted | src/EventsManager.java:270-279 | taking an event out keeps a queue in date order |
| EventIndex.Filed | src/EventsManager.java:142-177 | definition of `addToFrequencyMaps` on the index value: sorted insertion into the queue the frequency (and a yearly event's month) picks, appending to the list under a non-recurring event's key (no contract of its own; `FiledAt`, `FiledKeepsIndexed` and `FileThenUnfile` prove its effect) |
| EventIndex.FiledAt | src/EventsManager.java:142-177 | filing changes no bucket but the one the frequency and date choose; that bucket gains exactly one copy of the event (as a multiset: a queue keeps its own order); a non-recurring list gains it at the end |
| EventIndex.Unfiled | src/EventsManager.java:264-289 | definition of `deleteEventFromFrequencyMaps` on the index value: `remove(Object)` on the bucket the frequency and date pick; the caller must show that bucket exists (no contract of its own; `UnfiledFields`, `UnfiledKeepsIndexed` and `FileThenUnfile` prove its effect) |
| EventIndex.UnfiledFields | src/EventsManager.java:264-289 | deleteEventFromFrequencyMaps removes the event from exactly one field: the queue, the yearly queue of its month, or the list under its key |
| EventIndex.OneBucket | src/EventsManager.java:142-177 | in a valid index a stored event is in a bucket exactly when that bucket is the one its frequency and date choose |
| EventIndex.StrandedNotIndexed | src/EventsManager.java:142-177 | a stored event missing from the bucket of its own frequency and date breaks the invariant |
| EventIndex.FiledIntoInitial | src/EventsManager.java:161-171 | filing into the empty index makes a one-event list under the key, or a one-event yearly queue |
| EventIndex.FiledKeepsIndexed | src/EventsManager.java:142-177 | filing a new event keeps the invariant, with the event added to the stored set |
| EventIndex.AppendKeepsIndexed | src/EventsManager.java:161-171 | appending a new non-recurring event keeps the invariant |
| EventIndex.InsertKeepsIndexed | src/EventsManager.java:149-160 | inserting a new recurring event into its queue keeps the invariant |
| EventIndex.UnfiledKeepsIndexed | src/EventsManager.java:264-289 | unfiling a stored event finds its bucket and keeps the invariant, with the event dropped from the stored set |
| EventIndex.FileThenUnfile | src/EventsManager.java:264-284 | deleting right after adding restores every bucket; only a new non-recurring key stays behind, mapped to an empty list |
| EventIndex.UnfileFiledBucket | src/EventsManager.java:264-284 | unfiling a just-filed event puts its bucket back as it was |
| EventIndex.RemoveInserted | src/EventsManager.java:270 | removing an event inserted into a sequence that did not hold it gives the sequence back |
| EventIndex.Lower | src/EventsManager.java:127 | toLowerCase keeps the length and lower-cases each character |
| EventIndex.LowerIdempotent | src/EventsManager.java:127 | lower-casing twice changes nothing more, and no upper-case letter is left |
| EventIndex.Named | src/EventsManager.java:124-134 | definition of the name-map half of `addToMaps`: the event appended to the list under its lower-cased name, a new list when the name is new (no contract of its own; `NamedKeepsIndexed` and `NameRoundTrip` prove its effect) |
| EventIndex.NamedKeepsIndexed | src/EventsManager.java:124-134 | adding a new event under its lower-cased name keeps the name index consistent |
| EventIndex.UnnamedAt | src/EventsManager.java:230-253 | definition of the name-map half of `deleteEvent`: the only event of a name takes its key with it, one of several is cut out by position (no contract of its own; `UnnamedKeepsIndexed` and `NameRoundTrip` prove its effect) |
| EventIndex.UnnamedKeepsIndexed | src/EventsManager.java:241-253 | cutting the i-th event out of a list of its name keeps the name index consistent without it |
| EventIndex.NameRoundTrip | src/EventsManager.java:124-134 | deleting the event just added under a name gives the name map back |
| EventsManager.EventStore.AddToFrequencyMaps | src/EventsManager.java:142-177 | the buckets become Filed(old buckets, e): the one bucket chosen by frequency and date gains e; the name map is unchanged |
| EventsManager.EventStore.AddToMaps | src/EventsManager.java:124-137 | e is appended under its lower-cased name, or starts a one-element list; it is filed by frequency; a valid store stays valid |
| EventsManager.EventStore.DeleteEventFromFrequencyMaps | src/EventsManager.java:264-289 | it ends normally exactly when the chosen key is present, and then the buckets become Unfiled(old buckets, e); a missing key is the NullPointerException of line 284 and leaves the buckets unchanged |
| EventsManager.DeleteChoice | src/EventsManager.java:220-258 | which listed event is deleted, both ways round: none (-1) exactly when the name is not listed, its list is empty, or its only event is not confirmed; the confirmed only event is position 0; of several, the selected number (1..count, as the prompt loop of lines 243-254 accepts it) less one |
| EventsManager.EventStore.DeleteEvent | src/EventsManager.java:220-258 | nothing changes when no event is chosen; otherwise the only event of a name takes its key with it and one of several, the selected one (1..count, the range the prompt loop accepts), is cut out of the list, it leaves its bucket, and a valid store stays valid without error |
| EventsManager.EventStore.DeleteListed | src/EventsManager.java:230-253 | both deletion paths once an event is picked, with the same name-map, bucket and validity results |
| EventsManager.EventStore.UpdateFrequency | src/EventsManager.java:521-532 | the same frequency leaves the buckets unchanged; a different one unfiles e under its old frequency and files it under the new one; a stored event of a valid store never hits the NullPointerException and the store stays valid |
| EventsManager.EventStore.MoveToFrequency | src/EventsManager.java:525-528 | delete, set the frequency, add: the buckets become Filed(Unfiled(old buckets, e), e, new frequency) |
| EventsManager.EventStore.ApplyEdit | src/EventsManager.java:501-538 | one pass of the menu as written: the chosen attribute is overwritten; only a frequency change touches the buckets, so a new date leaves the event in the bucket of its old date |
| EventsManager.SetDateStrandsOnceEvent | src/EventsManager.java:502-508 | a non-recurring event filed under "201410" and then dated December 2014 is missing from the bucket of its own date, the index is no longer valid, and its key "201411" is absent, so a later delete throws |
| EventsManager.SetDateStrandsYearlyEvent | src/EventsManager.java:502-508 | a yearly event moved from June 6th to August 20th stays in June's queue and deleting it leaves every bucket unchanged; being the same object, it makes June 2015 mark its new day, the 20th, and marks nothing in June 2014, where its new date has not begun |
| EventsManager.EventStore.ApplyEditRefiling | src/EventsManager.java:501-538 | one pass of the menu with the date re-filed: the chosen attribute is overwritten and a valid store stays valid without error |
| EventsManager.EventStore.UpdateDate | src/EventsManager.java:502-508 | the date change done like the frequency change: the buckets become Filed(Unfiled(old buckets, e), e, new date); a stored event of a valid store keeps it valid |
| EventsManager.EventStore.MoveToDate | src/EventsManager.java:502-508 | delete, set the date, add, leaving the name map and every other stored event alone |
| EventsManager.EventStore.SetUnindexed | src/EventsManager.java:509-520 | new notes or a new reminder are written into the event and keep a valid store valid |
| EventsManager.EventStore.UpdateEvent | src/EventsManager.java:497-541 | after the whole run of menu choices the attributes are the choices applied in order, the name is unchanged, and the store is still valid |
| EventsManager.EventStore.ListEvents | src/EventsManager.java:358-435 | the days to mark are DaysToMark of the month's non-recurring bucket, the month's yearly queue and the monthly queue; the events shown are the whole non-recurring bucket, then the kept prefix of the yearly, monthly, weekly and daily queues |
| EventsManager.ListBuckets | src/EventsManager.java:358-433 | the five scans over the buckets they read give those days and those events |
| EventsManager.MarkAll | src/EventsManager.java:363-374 | every non-recurring event of the key contributes its day, in list order |
| EventsManager.ScanBucket | src/EventsManager.java:378-389 | the loop with break keeps the leading run of occurring events and collects their days |
| EventsManager.AddedKeepsValid | src/EventsManager.java:124-137 | adding a new event to both indexes keeps the store valid |
| EventsManager.DeletedKeepsValid | src/EventsManager.java:230-253 | deleting a listed event from both indexes keeps the store valid, and its bucket is found |
| EventsManager.RefiledKeepsValid | src/EventsManager.java:525-528 | unfiling a stored event and filing it again under its new frequency or date keeps the store valid |
| EventsCalendar.Printed | src/EventsCalendar.java:44-72 | definition of the output once days 1..k are written: the opening, then per day its `%2d` text, its mark and its newline or gap (no contract of its own; the count and frame lemmas below prove its shape) |
| EventsCalendar.Grid | src/EventsCalendar.java:41-75 | definition of the whole output of `printCalendar`: every day written, then the final newline (no contract of its own; `GridCounts`, `GridFrame` and `GridDependsOnMarkedSet` prove its shape) |
| EventsCalendar.PrintCalendar | src/EventsCalendar.java:41-75 | the output is the grid: header, leading blanks, the day cells, and a final newline |
| EventsCalendar.PrintLeadingBlanks | src/EventsCalendar.java:44-52 | the header, then firstWeekdayOfMonth - 1 blank cells (none when it is 1 or less), with the counter equal to that number |
| EventsCalendar.PrintDays | src/EventsCalendar.java:55-72 | the day cells 1..n in order, each followed by its mark and separator, with the weekday counter as the source leaves it |
| EventsCalendar.CounterModSeven | src/EventsCalendar.java:64-71 | with fewer than seven leading blanks the counter is (lead + days written) mod 7, so it stays in 0..6 between cells |
| EventsCalendar.RowEndsEverySeven | src/EventsCalendar.java:64-71 | a newline follows a day exactly when lead + day is a multiple of 7 (and never when seven or more blanks lead) |
| EventsCalendar.PrintedDependsOnMarkedSet | src/EventsCalendar.java:59-62 | the printed days depend only on which days are listed, not on order or repeats |
| EventsCalendar.GridDependsOnMarkedSet | src/EventsCalendar.java:59-62 | the same for the whole grid |
| EventsCalendar.DayTextIsSpacePadded | src/EventsCalendar.java:57 | a day cell is Java's "%2d" of the day |
| EventsCalendar.PrintedStarCount | src/EventsCalendar.java:59-62 | there is exactly one '*' per day of 1..k that is listed, however often it is listed |
| EventsCalendar.PrintedNewlineCount | src/EventsCalendar.java:64-71 | besides the header's newline, one newline follows each cell that closes a row |
| EventsCalendar.GridCounts | src/EventsCalendar.java:55-74 | the grid has one '*' per listed day of the month, and two newlines more than the rows it closes |
| EventsCalendar.OpeningStartsWithHeader | src/EventsCalendar.java:46-52 | before day 1 the output is the header and five spaces per blank cell, and every character after the header is a space |
| EventsCalendar.GridFrame | src/EventsCalendar.java:46-74 | the grid starts with the weekday header line and ends with a newline |

## Left out

- Terminal I/O is not modelled: the menus, prompts and retry loops, `listEventsFromName`'s printing, `searchEvent`, `Event.print` and `pressEnterToContinue`. The answers a user types become parameters of `DeleteEvent` and `UpdateEvent`.
- The printing of the event listings inside `listEvents` is left out. `ListEvents` returns the days to mark and the events in the order it would print them. `PrintCalendar` returns the string it would print.
- `java.util.Date`, `GregorianCalendar` and `SimpleDateFormat` are not modelled. A date is a record of year, 0-based month, day 1..31, hour and minute. Time zones, lenient parsing and month lengths are not modelled. The comparator is the lexicographic order of those fields. The linear `Instant` used to state it gives every month 31 days, which keeps the order but is not a calendar.
- `printCalendarMonthYear` is left out, because it needs library calendar arithmetic: the first weekday of the month, the month length and the month name. `PrintCalendar` takes the day count and the first weekday as parameters.
- Java's `PriorityQueue` heap layout is not modelled. Its for-each iterator does not promise date order. The daily, weekly, monthly and yearly queues are sequences kept in date order by a stable sorted insertion, which is the order the comparator intends. The early-exit property is proved for that order.
- `main` and `init` (program start-up and sample data) are left out. Only the keys of the sample data appear, in `Utility.SeedDataKeys`.
- `Events.Event.GetDate`, `GetName`, `GetNotes`, `GetReminder`, `GetFrequency`: these are functions that read their one field. They have no contract beyond their body, so they have no row above.
- `EventIndex.Lower`: only the ASCII letters A-Z are lower-cased. Java's full Unicode case mapping is not modelled.
- `EventsCalendar.PrintCalendar` requires `numberOfMonthDays < 100`, so that each day fits Java's two-column `%2d` field. The source is only ever called with real month lengths (28..31).
- `EventsManager.EventStore.ListEvents` requires the queried month to be a key of the yearly map. Outside it, `yearlyEvents.get(month)` returns null and the for-each throws. The month browser only produces months 0..11.
- `EventsManager.EventStore.AddToMaps` and `AddToFrequencyMaps` require that a yearly event's month is a key of the yearly map. Otherwise the source throws a NullPointerException at line 159. After `initializeMaps` every month 0..11 is a key.
- `EventsManager.EventStore.UpdateEvent` applies the corrected step `ApplyEditRefiling`, which re-files a changed date. The step as the program runs it is `ApplyEdit`, whose effect is stated separately (see Findings).
- `EventsManager.EventStore.UpdateFrequency`, `MoveToFrequency`, `UpdateDate` and `MoveToDate` require that a yearly event's month (under the new frequency or date) is a key of the yearly map. Otherwise the source throws a NullPointerException at line 159. After `initializeMaps` every month 0..11 is a key.
- `EventsManager.EventStore.ApplyEdit` and `ApplyEditRefiling` require `YearlyReady`: the yearly map has exactly the keys 0..11, as `initializeMaps` leaves it. A store built any other way is not modelled for an update.
- `EventsManager.EventStore.UpdateEvent` requires at least one menu choice, because the source's do-while asks before it tests and so always runs one pass.
- `EventsManager.DeleteChoice` and `EventsManager.EventStore.DeleteEvent` require a selected number in 1..count when a name has several events. The source's prompt loop (lines 243-254) asks again until it gets one, and that retrying is terminal I/O.
- `EventsManager.EventStore.DeleteEventFromFrequencyMaps`: a yearly event's month missing from the yearly map is also reported as a NullPointerException. After `initializeMaps` this cannot happen.
- The line separator is fixed to `\n`. `System.out.println` writes the platform's separator, which is `\r\n` on Windows; `Header`, `Separator` and `Grid` always use `\n`.
- The day-of-month is not checked against the month length when an event occurs: a monthly event on the 31st occurs in every month from its anchor on. The program behaves the same way.
- The non-recurring delete in the source does not drop a key whose list becomes empty. The model keeps that behaviour: `EventIndex.FileThenUnfile` states that an empty list stays behind. The name map behaves differently: deleting the only event of a name removes the key.

## Findings

| source | as written | input that shows it | evidently intended | confidence | as-written member | corrected member |
|---|---|---|---|---|---|---|
| src/EventsManager.java:502-508 | the date choice of `updateEvent(Event)` only calls `setDate` and leaves the event in the bucket its old date chose | (1) A non-recurring event dated 11/24/2014 is filed under "201410". Its date is set to 12/24/2014. It is then missing from the bucket its date chooses, and "201411" is absent, so a later frequency change or delete throws a NullPointerException at line 284. (2) A yearly event is moved from June to August. It stays in June's queue, and a delete finds nothing to remove in August's. Because the queue holds the same object, June marks the event's new day-of-month (line 380 reads the current date), and only from the year after the new date on. | a date change re-files the event as the frequency change does: out of the old bucket, into the new one | not executed | EventsManager.EventStore.ApplyEdit; EventsManager.SetDateStrandsOnceEvent; EventsManager.SetDateStrandsYearlyEvent | EventsManager.EventStore.ApplyEditRefiling; EventsManager.EventStore.UpdateDate |
