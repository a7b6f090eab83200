/**
 * Room allocation of catalog/views.py: find_best_room, the tightest-fit
 * search for a substitute room, and the room decision of book_event, which
 * keeps the requested room when it is free and large enough.
 */
module Allocation {
  import opened Wrappers
  import opened Schedule
  import opened Events

  /** A room find_best_room may return: status 'a', no event at all at the slot, large enough. */
  predicate IsCandidate(r: Room, booked: set<RoomId>, attendees: int)
  {
    r.status == Available && r.id !in booked && r.capacity >= attendees
  }

  /**
   * A candidate of least capacity in rooms.  Among candidates of equal
   * capacity it keeps the earliest in the sequence.
   */
  function Tightest(rooms: seq<Room>, booked: set<RoomId>, attendees: int): (best: Option<Room>)
    ensures best.Some? ==> best.value in rooms && IsCandidate(best.value, booked, attendees)
    ensures best.Some? ==> forall x :: x in rooms && IsCandidate(x, booked, attendees) ==>
      best.value.capacity <= x.capacity
    ensures best.None? <==> forall x :: x in rooms ==> !IsCandidate(x, booked, attendees)
  {
    if rooms == [] then None
    else
      var rest := Tightest(rooms[1..], booked, attendees);
      if !IsCandidate(rooms[0], booked, attendees) then rest
      else if rest.None? || rooms[0].capacity <= rest.value.capacity then Some(rooms[0])
      else rest
  }

  /**
   * find_best_room: among the rooms with status 'a' that hold no event,
   * pending or approved, at (d, t) and seat the group, one of least capacity;
   * None exactly when there is no such room.
   */
  function FindBestRoom(rooms: seq<Room>, store: Store, d: Date, t: Time, attendees: int): (best: Option<Room>)
    ensures best.Some? ==> best.value in rooms && best.value.status == Available
    ensures best.Some? ==> best.value.capacity >= attendees
    ensures best.Some? ==> forall id :: id in store && Occupies(store[id], best.value.id, d, t) ==> false
    ensures best.Some? ==> forall x :: x in rooms && IsCandidate(x, BookedRoomIds(store, d, t), attendees) ==>
      best.value.capacity <= x.capacity
    ensures best.None? <==> forall x :: x in rooms ==> !IsCandidate(x, BookedRoomIds(store, d, t), attendees)
  {
    Tightest(rooms, BookedRoomIds(store, d, t), attendees)
  }

  /** A pending event alone is enough to keep find_best_room away from a room. */
  lemma PendingExcludesFromSearch(rooms: seq<Room>, store: Store, d: Date, t: Time, attendees: int, id: EventId)
    requires id in store && store[id].date == d && store[id].time == t
    ensures match FindBestRoom(rooms, store, d, t, attendees)
      case Some(b) => b.id != store[id].room
      case None => true
  {
  }

  /** The room chosen by book_event, whether it replaced the requested one, and the attendee limit set. */
  datatype Assignment = Assignment(room: Room, substituted: bool, maxAttendees: int)

  datatype BookingError = NoRoomFits

  function ErrorMessage(err: BookingError): string
  {
    match err
    case NoRoomFits => "No available rooms fit that group size at this time."
  }

  /**
   * The room decision of book_event: the requested room when it is available
   * (no approved event at the slot) and seats the group, whatever its status;
   * otherwise the room find_best_room returns, flagged as a substitute; or an
   * error when there is none.
   */
  function DecideRoom(requested: Room, rooms: seq<Room>, store: Store, d: Date, t: Time, attendees: int)
    : (r: Result<Assignment, BookingError>)
    ensures IsAvailable(store, requested, d, t) && requested.capacity >= attendees ==>
      r == Success(Assignment(requested, false, attendees))
    ensures !(IsAvailable(store, requested, d, t) && requested.capacity >= attendees) && r.Success? ==>
      r.value.substituted && Some(r.value.room) == FindBestRoom(rooms, store, d, t, attendees)
    ensures r.Success? && !r.value.substituted ==> r.value.room == requested
    ensures r.Success? ==> r.value.room.capacity >= attendees && r.value.maxAttendees == attendees
    ensures r.Success? && r.value.substituted ==>
      r.value.room in rooms && r.value.room.status == Available &&
      r.value.room.id !in BookedRoomIds(store, d, t)
    ensures r.Failure? <==>
      !(IsAvailable(store, requested, d, t) && requested.capacity >= attendees) &&
      forall x :: x in rooms ==> !IsCandidate(x, BookedRoomIds(store, d, t), attendees)
  {
    if IsAvailable(store, requested, d, t) && requested.capacity >= attendees then
      Success(Assignment(requested, false, attendees))
    else
      match FindBestRoom(rooms, store, d, t, attendees)
      case Some(best) => Success(Assignment(best, true, attendees))
      case None => Failure(NoRoomFits)
  }

  /** The rooms table holds one row per id, and the requested room is that row. */
  predicate SameRow(rooms: seq<Room>, requested: Room)
  {
    forall x :: x in rooms && x.id == requested.id ==> x == requested
  }

  /**
   * A substitute is never the requested room: either the requested room is
   * too small, or an approved event holds it, which puts it among the booked
   * rooms find_best_room excludes.
   */
  lemma SubstituteIsNeverRequested(requested: Room, rooms: seq<Room>, store: Store, d: Date, t: Time, attendees: int)
    requires SameRow(rooms, requested)
    ensures var r := DecideRoom(requested, rooms, store, d, t, attendees);
      r.Success? && r.value.substituted ==> r.value.room.id != requested.id
  {
    var r := DecideRoom(requested, rooms, store, d, t, attendees);
    if r.Success? && r.value.substituted {
      var b := r.value.room;
      if requested.capacity < attendees {
        assert b != requested;
      } else {
        assert !IsAvailable(store, requested, d, t);
        assert requested.id in BookedRoomIds(store, d, t);
      }
    }
  }

  /** The requested path never looks at the room's status: a reserved room that is free and large enough is kept. */
  lemma RequestedStatusIsNotChecked(requested: Room, rooms: seq<Room>, store: Store, d: Date, t: Time, attendees: int)
    requires requested.status != Available
    requires IsAvailable(store, requested, d, t) && requested.capacity >= attendees
    ensures DecideRoom(requested, rooms, store, d, t, attendees) == Success(Assignment(requested, false, attendees))
  {
  }

  /**
   * Rooms A (capacity 10) and B (capacity 4), both available.  A group of six
   * gets A while A is free; once an approved event holds A, B is too small and
   * the booking fails.
   */
  lemma ApprovalOfRequestedRoomLeavesNoFit(d: Date, t: Time)
    ensures var a, b := Room(1, "A", 10, Available), Room(2, "B", 4, Available);
      DecideRoom(a, [a, b], map[], d, t, 6) == Success(Assignment(a, false, 6)) &&
      DecideRoom(a, [a, b], map[7 := Event(7, "Talk", 6, d, t, 1, true)], d, t, 6) == Failure(NoRoomFits)
  {
    var a, b := Room(1, "A", 10, Available), Room(2, "B", 4, Available);
    var store := map[7 := Event(7, "Talk", 6, d, t, 1, true)];
    assert store[7].approved && Occupies(store[7], a.id, d, t);
    assert a.id in BookedRoomIds(store, d, t);
  }

  /**
   * book_event after the form is valid: decide the room, fill in a fresh
   * pending event for it and save it; on failure nothing is saved.
   */
  method BookEvent(store: EventStore, requested: Room, rooms: seq<Room>, d: Date, t: Time,
                   attendees: int, newId: EventId, name: string)
    returns (r: Result<Event, BookingError>)
    requires store.Valid() && newId !in store.events
    modifies store
    ensures store.Valid()
    ensures r.Success? <==> DecideRoom(requested, rooms, old(store.events), d, t, attendees).Success?
    ensures r.Failure? ==> store.events == old(store.events)
    ensures r.Success? ==>
      var a := DecideRoom(requested, rooms, old(store.events), d, t, attendees).value;
      r.value == Event(newId, name, attendees, d, t, a.room.id, false) &&
      store.events == old(store.events)[newId := r.value]
  {
    var decision := DecideRoom(requested, rooms, store.events, d, t, attendees);
    if decision.Failure? {
      return Failure(decision.error);
    }
    var event := Event(newId, name, 0, d, t, 0, false);
    event := event.(room := decision.value.room.id);
    event := event.(maxAttendees := attendees);
    var ok := store.Save(event);
    assert ok;
    r := Success(event);
  }
}
