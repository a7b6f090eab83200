/**
 * The daily slot grid of catalog/models.py: the fixed start hours, the slot
 * length and the closing hour, with the start-time validation of an event
 * (Event.clean) and the computation of its end time (Event.end_time).
 */
module Schedule {
  import opened Wrappers

  /** The start hours a booking may use. */
  const ValidHours: seq<nat> := [10, 12, 14, 16, 18, 20]
  /** Length of one slot, in hours. */
  const SlotDuration: nat := 2
  /** No slot may end after this hour. */
  const LastEndHour: nat := 22

  /** A calendar date; dates compare chronologically, i.e. by (year, month, day). */
  datatype Date = Date(year: int, month: int, day: int)

  /** Strict chronological order on dates (Python's `<` on `datetime.date`). */
  predicate Before(a: Date, b: Date)
  {
    a.year < b.year ||
    (a.year == b.year && (a.month < b.month || (a.month == b.month && a.day < b.day)))
  }

  lemma BeforeIsStrictTotalOrder(a: Date, b: Date, c: Date)
    ensures !Before(a, a)
    ensures Before(a, b) ==> !Before(b, a)
    ensures Before(a, b) && Before(b, c) ==> Before(a, c)
    ensures a == b || Before(a, b) || Before(b, a)
  {
  }

  /** A time of day without a time zone, as Python's `datetime.time`. */
  datatype Time = Time(hour: nat, minute: nat, second: nat, microsecond: nat)

  predicate WellFormed(t: Time)
  {
    t.hour < 24 && t.minute < 60 && t.second < 60 && t.microsecond < 1000000
  }

  predicate OnTheHour(t: Time)
  {
    t.minute == 0 && t.second == 0 && t.microsecond == 0
  }

  /** The three ways Event.clean rejects a start time, in the order it checks them. */
  datatype SlotError = NotOnTheHour | HourNotInGrid | EndsAfterClosing

  function Message(err: SlotError): string
  {
    match err
    case NotOnTheHour => "Events must start exactly on the hour."
    case HourNotInGrid => "Start time must be one of these: 10, 12, 14, 16, 18, or 20."
    case EndsAfterClosing => "Event would end after 10 PM."
  }

  /** Every start hour of the grid leaves room for a whole slot before closing. */
  lemma GridFitsDay()
    ensures forall h :: h in ValidHours ==> h + SlotDuration <= LastEndHour
    ensures forall h :: h in ValidHours ==> h + SlotDuration < 24
  {
  }

  /**
   * Event.clean on the start time: a missing time is accepted; otherwise the
   * time must be on the hour and its hour one of ValidHours.  The closing-hour
   * check that follows can never fire, since the grid fits the day.
   */
  function Clean(t: Option<Time>): (r: Outcome<SlotError>)
    ensures t.None? ==> r.Pass?
    ensures t.Some? ==> (r.Pass? <==> OnTheHour(t.value) && t.value.hour in ValidHours)
    ensures t.Some? && !OnTheHour(t.value) ==> r == Fail(NotOnTheHour)
    ensures t.Some? && OnTheHour(t.value) && t.value.hour !in ValidHours ==> r == Fail(HourNotInGrid)
    ensures r != Fail(EndsAfterClosing)
  {
    match t
    case None => Pass
    case Some(s) =>
      if !OnTheHour(s) then Fail(NotOnTheHour)
      else if s.hour !in ValidHours then Fail(HourNotInGrid)
      else if s.hour + SlotDuration > LastEndHour then Fail(EndsAfterClosing)
      else Pass
  }

  /**
   * Event.end_time: the time of day SlotDuration hours after the start.  Only
   * the time is kept, so a start late in the day would wrap past midnight.
   */
  function EndTime(t: Time): (r: Time)
    ensures WellFormed(t) ==> WellFormed(r)
    ensures (r.hour + 24 - t.hour) % 24 == SlotDuration % 24
    ensures r.minute == t.minute && r.second == t.second && r.microsecond == t.microsecond
  {
    Time((t.hour + SlotDuration) % 24, t.minute, t.second, t.microsecond)
  }

  /** For a start time that Clean accepts, the end is exactly two hours later on the same day, by closing time. */
  lemma EndTimeOfValidSlot(t: Time)
    requires WellFormed(t) && Clean(Some(t)).Pass?
    ensures t.hour + SlotDuration < 24
    ensures EndTime(t).hour == t.hour + SlotDuration
    ensures EndTime(t).hour <= LastEndHour
    ensures OnTheHour(EndTime(t))
  {
    GridFitsDay();
  }
}
