# Room booking rules of the event catalogue

A Dafny model of the booking core of a Django event-catalogue application
(`catalog`). Rooms have a capacity and an administrative status ('a'
available, 'r' reserved, 'u' unavailable). Events book one room at one date
and start time and are pending until approved. The model covers:

- the daily slot grid (start hours 10, 12, 14, 16, 18, 20; two-hour slots;
  closing at 22) with the start-time validation and end-time computation of
  an event (`schedule.dfy`);
- the event table as a class whose `Save` method follows `Event.save`: an
  event that becomes approved evicts every other pending event at the same
  room, date and time, and the database allows at most one approved event per
  such triple (`events.dfy`);
- room availability (only approved events block a room), the tightest-fit
  substitute search `find_best_room` and the room decision of `book_event`
  (`allocation.dfy`);
- the month-grid load tiers, the month rollover of the index page and the
  hour-by-room day grid (`calendar.dfy`);
- the form validators: the bulk blocked-dates range check and the lower bound
  on expected attendees (`forms.dfy`).

Three behaviours of the code the model keeps:

- the requested room is kept without looking at its status (`Allocation.RequestedStatusIsNotChecked`);
- `find_best_room` skips rooms holding any event, pending ones included, while `is_available` looks only at approved ones;
- ties in capacity have no tie-break in the source; the model returns the earliest such room in the order the rooms are given.

## Model

| member | source | states |
|---|---|---|
| Schedule.GridFitsDay | catalog/models.py:13-15 | every start hour plus the slot length ends by the closing hour 22, and before midnight |
| Schedule.Clean | catalog/models.py:59-67 | a missing time passes; a time passes iff it is exactly on the hour and its hour is in the grid; off-hour times fail with the on-the-hour error first; the "ends after 10 PM" error is never produced |
| Schedule.EndTime | catalog/models.py:57-58 | the end is SlotDuration hours after the start modulo a day, with minutes, seconds and microseconds kept; a well-formed start gives a well-formed end |
| Schedule.EndTimeOfValidSlot | catalog/models.py:57-67 | for an accepted start the end hour is exactly start + 2, does not wrap past midnight, is at most 22 and on the hour |
| Events.BookedRoomIds | catalog/views.py:157 | the set holds exactly the rooms of events (pending or approved) at that date and time |
| Events.IsAvailable | catalog/models.py:30-31 | a room that is not available holds an event at that slot; a store with no approved event leaves every room available |
| Events.PendingNeverBlocks | catalog/models.py:30-31 | adding, replacing or removing a pending event never changes a room's availability |
| Events.AfterSave | catalog/models.py:69-88 | a refused save (another approved event at the triple of an approved event) leaves the table unchanged; an accepted one stores the event under its key; no other key appears |
| Events.SaveStoresEvent | catalog/models.py:81 | a save the unique constraint accepts leaves the event in the store under its key |
| Events.ApprovingSaveClearsRivals | catalog/models.py:82-88 | after an approving save every other event at the same triple is approved, i.e. no pending rival is left |
| Events.NonApprovingSaveDeletesNothing | catalog/models.py:70-81 | a pending save, or re-saving an already-approved event, removes no event and changes no other event |
| Events.SaveDeletesOnlyPendingRivals | catalog/models.py:69-88 | an event is deleted only if the save approves and it is a pending event at the same triple; approved events survive; nothing else is added or changed |
| Events.SavePreservesWellKeyed | catalog/models.py:81 | saving keeps every event under its own primary key |
| Events.SavePreservesUniqueness | catalog/models.py:50-56 | at most one approved event per (room, date, time) holds after every save |
| Events.ApprovedSaveTakesRoom | catalog/models.py:30-31 | once an approved event is saved, its room is no longer available at its date and time |
| Events.EventStore.Save | catalog/models.py:69-88 | keeps the store invariant (keys, one approved per triple); an approved save succeeds iff no other approved event holds the triple, a pending save always succeeds; the new table is the table after save |
| Allocation.Tightest | catalog/views.py:158-160 | the result is a candidate from the list of least capacity among candidates; none iff the list has no candidate |
| Allocation.FindBestRoom | catalog/views.py:156-160 | a returned room has status 'a', seats the group, holds no event at all at the slot and has minimum capacity among such rooms; none iff no room qualifies |
| Allocation.PendingExcludesFromSearch | catalog/views.py:157-158 | a room holding only a pending event at the slot is never returned by the search |
| Allocation.DecideRoom | catalog/views.py:183-194 | a free, large-enough requested room is kept unsubstituted; an unflagged result is always the requested room; otherwise a success is exactly find_best_room's room, flagged as a substitute (an available room with no event at the slot); any assigned room seats the group and max attendees is the group size; failure iff neither exists |
| Allocation.SubstituteIsNeverRequested | catalog/views.py:183-189 | a substitute never has the requested room's id |
| Allocation.RequestedStatusIsNotChecked | catalog/views.py:183-184 | for every requested room whose status is not 'a' and every store, a room that is free (no approved event) and large enough is assigned with no substitution |
| Allocation.ApprovalOfRequestedRoomLeavesNoFit | catalog/views.py:183-192 | rooms of capacity 10 and 4, a group of 6: the large room is assigned while free and the booking fails once an approved event holds it |
| Allocation.BookEvent | catalog/views.py:177-195 | on success a fresh pending event with the decided room, date, time and max attendees is added and nothing else changes; on failure the table is unchanged |
| Calendar.SlotsPerDayMatchesGrid | catalog/views.py:19 | six slots per day, one per start hour of the grid |
| Calendar.CountAvailable | catalog/views.py:44 | at most the number of rooms, and zero iff no room has status 'a' |
| Calendar.RoomsTotal | catalog/views.py:44 | equal to the available-room count when that is positive, and exactly 1 when no room has status 'a' |
| Calendar.SlotsTotal | catalog/views.py:45 | a positive multiple of six, at least six, six slots per counted room |
| Calendar.LoadClass | catalog/views.py:47-57 | load-0 iff the day has no event; in capacity-aware mode a non-empty day is load-1 iff at most 33% of the slots are taken, load-2 iff above 33% and at most 66%, load-3 iff above 66% |
| Calendar.CountTiers | catalog/views.py:48-52 | without capacity awareness: 0 events is load-0, 1-2 load-1, 3-4 load-2, 5 or more load-3 |
| Calendar.EmptyTierIffNoEvents | catalog/views.py:47-57 | in both modes the tier is load-0 iff the day has no event |
| Calendar.LoadClassMonotone | catalog/views.py:47-57 | in both modes more events never give a lighter tier |
| Calendar.FullDayIsHeavy | catalog/views.py:53-57 | a day with as many events as slots is load-3 |
| Calendar.CountOn | catalog/views.py:35-42 | the count of a day is zero iff no event is on that date |
| Calendar.MonthGrid | catalog/views.py:23-80 | one cell per visible day, week by week, each with its date, in-month flag, event count and load tier, and the room and slot totals |
| Calendar.NextMonth | catalog/views.py:85 | the result is a month in 1..12 and exactly one month after the given one (December rolls to January of the next year) |
| Calendar.DayGrid | catalog/views.py:108-144 | one row per start hour in grid order and one cell per room; a cell is booked iff an event of that day and room starts in that hour, and then shows one such event |
| Forms.CleanBulkBlockDates | catalog/forms.py:43-49 | fails with "End date cannot be before start date." iff both dates are present and the end precedes the start; otherwise returns the data unchanged |
| Forms.AcceptedRangeRunsForward | catalog/forms.py:47 | a complete range passes iff the start equals or precedes the end |
| Forms.CleanExpectedAttendees | catalog/forms.py:12 | passes iff a value is present and at least 1, returning it unchanged; a missing value fails as required |

## Left out

- Calendar.LoadClass: the float comparisons `n / slots_total <= 0.33` and `<= 0.66` are modelled as the exact comparisons `100 n <= 33 slots_total` and `100 n <= 66 slots_total`; these agree with the floats for any realistic number of rooms, but float rounding itself is not modelled.
- Allocation.FindBestRoom: among rooms of equal least capacity the source lets the database choose; the model returns the earliest in the given order, and its contract promises only a least-capacity candidate.
- Allocation.BookEvent: in the source, `EventBookingForm` is a plain `forms.Form` (catalog/forms.py:5) with no `save`, so `form.save(commit=False)` at catalog/views.py:177 raises AttributeError on every valid submission and the lines after it are never reached as written. The model shows what those lines evidently intend: it creates a fresh pending event with a caller-supplied new identifier, and it assumes the planner is supplied: `book_event` never sets `planner`, a non-null foreign key (catalog/models.py:41), so even a form with `save` would have the write at catalog/views.py:195 refused. The event's detail, planner, genres and RSVP counter are not modelled.
- Request handling of `book_event` (the missing-room-id reply, the room lookup by id, parsing of date and time parameters, messages, redirects and rendering) is not modelled; the decision is modelled as a value (`Allocation.Assignment` with its `substituted` flag, or `Allocation.NoRoomFits`).
- Schedule.EndTime: the date that `end_time` combines with the start (catalog/models.py:58) is dropped; the OverflowError for a slot crossing midnight after the last representable date and the TypeError for a missing date are not modelled, and the model always returns a time.
- Calendar.MonthGrid: which days are shown (whole weeks starting on Sunday from Python's `calendar` module) is a parameter; day URLs and month names are not modelled.
- Calendar.DayGrid: the rooms, and their order by name (catalog/views.py:110), are given by the caller; the cells follow the order of that list.
- Calendar.DayGrid: when several events share a room and start hour, the source shows the last one it reads. Events come ordered by start time (catalog/models.py:49), so that is the latest start within the hour; among equal start times the database decides. The model promises only that one of them is shown. Booking URLs are not modelled.
- The current date of the index page comes from the clock and is a parameter of `Calendar.NextMonth`; the index page's event lists are not modelled.
- Event.save: `_state.adding` is modelled as "the key is not yet in the table"; a violation of the unique constraint is modelled as a refused save that changes nothing. Transactions, races on the unique index, UUID generation and time zones belong to the storage layer and are not modelled.
- The RSVP table only declares a counter and one response per (event, user); nothing in the code updates the counter, so no ledger is modelled. Blocked dates are only declared and no booking path checks them, so no blocked-date gate is modelled.
- Email dispatch of notifications, account registration, URL routing and admin registration are outside the booking rules.
