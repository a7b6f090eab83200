/**
 * Rooms, events and the event store of catalog/models.py: room availability
 * (only approved events block a room), the database rule that a room, date
 * and time hold at most one approved event, and Event.save, which evicts the
 * pending rivals of an event at the moment it becomes approved.
 */
module Events {
  import opened Schedule

  /** Opaque identities (UUID primary keys in the source). */
  type RoomId = nat
  type EventId = nat

  /** The administrative status of a room: 'a', 'r' or 'u'. */
  datatype RoomStatus = Available | Reserved | Unavailable

  datatype Room = Room(id: RoomId, name: string, capacity: int, status: RoomStatus)

  /** A booking of one room at one date and start time; pending until approved. */
  datatype Event = Event(
    id: EventId,
    name: string,
    maxAttendees: int,
    date: Date,
    time: Time,
    room: RoomId,
    approved: bool)

  /** The event table, keyed by primary key. */
  type Store = map<EventId, Event>

  /** Two events claim the same (room, date, time) triple. */
  predicate SameSlot(a: Event, b: Event)
  {
    a.room == b.room && a.date == b.date && a.time == b.time
  }

  predicate Occupies(e: Event, room: RoomId, d: Date, t: Time)
  {
    e.room == room && e.date == d && e.time == t
  }

  /** Each stored event sits under its own primary key. */
  ghost predicate WellKeyed(store: Store)
  {
    forall id :: id in store ==> store[id].id == id
  }

  /** The constraint uniq_room_date_times: at most one approved event per (room, date, time). */
  ghost predicate AtMostOneApproved(store: Store)
  {
    forall i, j :: i in store && j in store && i != j && store[i].approved && store[j].approved
      ==> !SameSlot(store[i], store[j])
  }

  /** The rooms that have any event, pending or approved, at date d and time t. */
  function BookedRoomIds(store: Store, d: Date, t: Time): (ids: set<RoomId>)
    ensures forall id :: id in store && store[id].date == d && store[id].time == t ==> store[id].room in ids
    ensures forall r :: r in ids ==> exists id :: id in store && Occupies(store[id], r, d, t)
  {
    set id | id in store && store[id].date == d && store[id].time == t :: store[id].room
  }

  /** Room.is_available: no approved event holds the room at (d, t). */
  function IsAvailable(store: Store, room: Room, d: Date, t: Time): (free: bool)
    ensures !free ==> room.id in BookedRoomIds(store, d, t)
    ensures (forall id :: id in store ==> !store[id].approved) ==> free
  {
    !exists id :: id in store && store[id].approved && Occupies(store[id], room.id, d, t)
  }

  /** Adding, replacing or removing a pending event never changes whether a room is free. */
  lemma PendingNeverBlocks(store: Store, p: Event, room: Room, d: Date, t: Time)
    requires !p.approved
    ensures IsAvailable(store[p.id := p], room, d, t) == IsAvailable(store - {p.id}, room, d, t)
  {
    var s1, s2 := store[p.id := p], store - {p.id};
    if !IsAvailable(s1, room, d, t) {
      var id :| id in s1 && s1[id].approved && Occupies(s1[id], room.id, d, t);
      assert id != p.id && id in s2;
    }
    if !IsAvailable(s2, room, d, t) {
      var id :| id in s2 && s2[id].approved && Occupies(s2[id], room.id, d, t);
      assert id in s1;
    }
  }

  /** Saving e would break uniq_room_date_times: another approved event holds its triple. */
  predicate ViolatesUniqueness(store: Store, e: Event)
  {
    e.approved && exists id :: id in store && id != e.id && store[id].approved && SameSlot(store[id], e)
  }

  /** The save makes e approved: created approved, or updated from pending to approved. */
  predicate ApprovingNow(store: Store, e: Event)
  {
    if e.id !in store then e.approved else !store[e.id].approved && e.approved
  }

  /** The stored event id is a pending rival of e: same triple, another key. */
  predicate Evicted(store: Store, e: Event, id: EventId)
  {
    id in store && id != e.id && !store[id].approved && SameSlot(store[id], e)
  }

  function Evict(store: Store, e: Event): (r: Store)
    ensures forall id :: id in r <==> id in store && !Evicted(store, e, id)
    ensures forall id :: id in r ==> r[id] == store[id]
  {
    map id | id in store && !Evicted(store, e, id) :: store[id]
  }

  /**
   * The store after Event.save(e): a write that breaks the constraint is
   * refused and changes nothing; otherwise e is written under its key and, if
   * the save approves e, its pending rivals are deleted.
   */
  function AfterSave(store: Store, e: Event): (r: Store)
    ensures ViolatesUniqueness(store, e) ==> r == store
    ensures !ViolatesUniqueness(store, e) ==> e.id in r && r[e.id] == e
    ensures forall id :: id in r ==> id in store || id == e.id
  {
    if ViolatesUniqueness(store, e) then store
    else
      var written := store[e.id := e];
      if ApprovingNow(store, e) then Evict(written, e) else written
  }

  /** An accepted save leaves e in the store, as given. */
  lemma SaveStoresEvent(store: Store, e: Event)
    requires !ViolatesUniqueness(store, e)
    ensures e.id in AfterSave(store, e) && AfterSave(store, e)[e.id] == e
  {
  }

  /** After an approving save no other pending event shares e's triple. */
  lemma ApprovingSaveClearsRivals(store: Store, e: Event)
    requires !ViolatesUniqueness(store, e) && ApprovingNow(store, e)
    ensures forall id :: id in AfterSave(store, e) && id != e.id && SameSlot(AfterSave(store, e)[id], e) ==>
      AfterSave(store, e)[id].approved
  {
  }

  /** A save that does not approve (a pending save, or re-saving an approved event) deletes nothing. */
  lemma NonApprovingSaveDeletesNothing(store: Store, e: Event)
    requires !ApprovingNow(store, e)
    ensures store.Keys <= AfterSave(store, e).Keys
    ensures forall id :: id in store && id != e.id ==> AfterSave(store, e)[id] == store[id]
  {
  }

  /**
   * What a save deletes: only pending events at e's triple, and only when it
   * approves e.  Every other event, approved ones included, is kept unchanged.
   */
  lemma SaveDeletesOnlyPendingRivals(store: Store, e: Event)
    ensures forall id :: id in store && id != e.id && id !in AfterSave(store, e) ==>
      ApprovingNow(store, e) && !store[id].approved && SameSlot(store[id], e)
    ensures forall id :: id in store && id != e.id && id in AfterSave(store, e) ==>
      AfterSave(store, e)[id] == store[id]
    ensures forall id :: id in store && store[id].approved && id != e.id ==> id in AfterSave(store, e)
    ensures forall id :: id in AfterSave(store, e) ==> id in store || id == e.id
  {
  }

  /** Saving keeps every event under its own key. */
  lemma SavePreservesWellKeyed(store: Store, e: Event)
    requires WellKeyed(store)
    ensures WellKeyed(AfterSave(store, e))
  {
  }

  /** Saving keeps at most one approved event per (room, date, time). */
  lemma SavePreservesUniqueness(store: Store, e: Event)
    requires AtMostOneApproved(store)
    ensures AtMostOneApproved(AfterSave(store, e))
  {
    var r := AfterSave(store, e);
    forall i, j | i in r && j in r && i != j && r[i].approved && r[j].approved
      ensures !SameSlot(r[i], r[j])
    {
      if i == e.id {
        assert j in store && store[j] == r[j];
      } else if j == e.id {
        assert i in store && store[i] == r[i];
      } else {
        assert i in store && j in store && store[i] == r[i] && store[j] == r[j];
      }
    }
  }

  /** Once e is saved approved, its room is no longer available at its date and time. */
  lemma ApprovedSaveTakesRoom(store: Store, e: Event, room: Room)
    requires e.approved && !ViolatesUniqueness(store, e) && room.id == e.room
    ensures !IsAvailable(AfterSave(store, e), room, e.date, e.time)
  {
    SaveStoresEvent(store, e);
  }

  /** The event table, updated in place by Event.save. */
  class EventStore {
    var events: Store

    ghost predicate Valid()
      reads this
    {
      WellKeyed(events) && AtMostOneApproved(events)
    }

    constructor ()
      ensures Valid() && events == map[]
    {
      events := map[];
    }

    /**
     * Event.save: work out whether this save approves e, write e (refused,
     * with nothing changed, when the constraint would break), then delete the
     * pending rivals at e's triple one by one if it does.
     */
    method Save(e: Event) returns (ok: bool)
      requires Valid()
      modifies this
      ensures Valid()
      ensures ok <==> !ViolatesUniqueness(old(events), e)
      ensures events == AfterSave(old(events), e)
    {
      var approvingNow := false;
      var isCreating := e.id !in events;
      if !isCreating {
        var previous := events[e.id];
        if !previous.approved && e.approved {
          approvingNow := true;
        }
      } else {
        if e.approved {
          approvingNow := true;
        }
      }
      SavePreservesWellKeyed(events, e);
      SavePreservesUniqueness(events, e);
      if ViolatesUniqueness(events, e) {
        return false;
      }
      ghost var before := events;
      events := events[e.id := e];
      if approvingNow {
        ghost var written := events;
        var pending := events.Keys;
        while pending != {}
          invariant pending <= written.Keys
          invariant forall id :: id in events <==> id in written && (id in pending || !Evicted(written, e, id))
          invariant forall id :: id in events ==> events[id] == written[id]
          decreases pending
        {
          var id :| id in pending;
          if id != e.id && !events[id].approved && SameSlot(events[id], e) {
            events := events - {id};
          }
          pending := pending - {id};
        }
        assert events == Evict(written, e);
      }
      ok := true;
    }
  }
}
