/**
 * One scheduled event: an anchor date, a name, free-text notes, a reminder in
 * minutes (0 for none) and how often it recurs. Its fields are overwritten in
 * place by the setters and by Update, and the indexes of the store hold
 * references to the same object.
 */
module Events {
  import opened Dates

  datatype Frequency = DAILY | WEEKLY | MONTHLY | YEARLY | NONE

  class Event {
    var date: Date
    var name: string
    var notes: string
    var reminder: int
    var frequency: Frequency

    constructor (date: Date, name: string, notes: string, reminder: int, frequency: Frequency)
      ensures this.date == date && this.name == name && this.notes == notes
      ensures this.reminder == reminder && this.frequency == frequency
    {
      this.date := date;
      this.name := name;
      this.notes := notes;
      this.reminder := reminder;
      this.frequency := frequency;
    }

    /** Overwrites all five fields; re-indexing is the caller's business. */
    method Update(date: Date, name: string, notes: string, reminder: int, frequency: Frequency)
      modifies this
      ensures this.date == date && this.name == name && this.notes == notes
      ensures this.reminder == reminder && this.frequency == frequency
    {
      this.date := date;
      this.name := name;
      this.notes := notes;
      this.reminder := reminder;
      this.frequency := frequency;
    }

    /** The getters read one field each and change nothing. */
    function GetDate(): Date
      reads this`date
    {
      date
    }

    function GetName(): string
      reads this`name
    {
      name
    }

    function GetNotes(): string
      reads this`notes
    {
      notes
    }

    function GetReminder(): int
      reads this`reminder
    {
      reminder
    }

    function GetFrequency(): Frequency
      reads this`frequency
    {
      frequency
    }

    method SetDate(date: Date)
      modifies this`date
      ensures this.date == date
    {
      this.date := date;
    }

    method SetName(name: string)
      modifies this`name
      ensures this.name == name
    {
      this.name := name;
    }

    method SetNotes(notes: string)
      modifies this`notes
      ensures this.notes == notes
    {
      this.notes := notes;
    }

    method SetReminder(reminder: int)
      modifies this`reminder
      ensures this.reminder == reminder
    {
      this.reminder := reminder;
    }

    method SetFrequency(frequency: Frequency)
      modifies this`frequency
      ensures this.frequency == frequency
    {
      this.frequency := frequency;
    }
  }

  /** EventDateComparator: orders two events by their anchor dates. */
  function CompareByDate(e1: Event, e2: Event): (r: int)
    reads e1, e2
    ensures r < 0 <==> Before(e1.date, e2.date)
    ensures r == 0 <==> e1.date == e2.date
    ensures r > 0 <==> Before(e2.date, e1.date)
    ensures r in {-1, 0, 1}
  {
    CompareSign(e1.date, e2.date);
    Compare(e1.date, e2.date)
  }
}
