/**
 * The validators of catalog/forms.py that carry a rule: the date-range check
 * of the bulk blocked-dates form and the lower bound on the expected number
 * of attendees of the booking form.
 */
module Forms {
  import opened Wrappers
  import opened Schedule

  /** The cleaned fields of BulkBlockDatesForm; a field that failed its own parsing is absent. */
  datatype BulkBlockData = BulkBlockData(startDate: Option<Date>, endDate: Option<Date>, reason: Option<string>)

  const RangeError: string := "End date cannot be before start date."

  /**
   * BulkBlockDatesForm.clean: refuses an end date before the start date and
   * hands back the cleaned data untouched otherwise, including when either
   * date is missing.
   */
  function CleanBulkBlockDates(data: BulkBlockData): (r: Result<BulkBlockData, string>)
    ensures r.Success? ==> r.value == data
    ensures r.Failure? ==> r.error == RangeError
    ensures r.Failure? ==> data.startDate.Some? && data.endDate.Some?
    ensures data.startDate.Some? && data.endDate.Some? ==>
      (r.Success? <==> !Before(data.endDate.value, data.startDate.value))
  {
    match (data.startDate, data.endDate)
    case (Some(start), Some(end)) =>
      if Before(end, start) then Failure(RangeError) else Success(data)
    case _ => Success(data)
  }

  /** A range that passes runs forwards: its start is never after its end, and a one-day range passes. */
  lemma AcceptedRangeRunsForward(start: Date, end: Date, reason: Option<string>)
    ensures CleanBulkBlockDates(BulkBlockData(Some(start), Some(end), reason)).Success? <==>
      start == end || Before(start, end)
  {
    BeforeIsStrictTotalOrder(start, end, start);
  }

  const RequiredError: string := "This field is required."
  const MinValueError: string := "Ensure this value is greater than or equal to 1."

  /** EventBookingForm.expected_attendees: a required integer of at least 1. */
  function CleanExpectedAttendees(value: Option<int>): (r: Result<int, string>)
    ensures r.Success? <==> value.Some? && value.value >= 1
    ensures r.Success? ==> r.value == value.value
    ensures value.None? ==> r == Failure(RequiredError)
  {
    match value
    case None => Failure(RequiredError)
    case Some(n) => if n < 1 then Failure(MinValueError) else Success(n)
  }
}
