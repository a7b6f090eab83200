/**
 * The calendar views of catalog/views.py: the load tier of a day in the month
 * grid (_month_grid's load_class and slots_total), the month rollover of the
 * index page, and the hour-by-room grid of the day view.
 */
module Calendar {
  import opened Wrappers
  import opened Schedule
  import opened Events

  /** SLOTS_PER_DAY: the number of slots on one day. */
  const SlotsPerDay: nat := 6

  lemma SlotsPerDayMatchesGrid()
    ensures SlotsPerDay == |ValidHours|
  {
  }

  /** The CSS classes "load-0" to "load-3", from an empty day to a heavy one. */
  datatype LoadTier = Load0 | Load1 | Load2 | Load3

  function Rank(tier: LoadTier): nat
  {
    match tier
    case Load0 => 0
    case Load1 => 1
    case Load2 => 2
    case Load3 => 3
  }

  /** The number of rooms with status 'a'. */
  function CountAvailable(rooms: seq<Room>): (c: nat)
    ensures c <= |rooms|
    ensures c == 0 <==> forall x :: x in rooms ==> x.status != Available
  {
    if rooms == [] then 0
    else (if rooms[0].status == Available then 1 else 0) + CountAvailable(rooms[1..])
  }

  /** rooms_total: the available rooms, counted as one when there are none. */
  function RoomsTotal(rooms: seq<Room>): (n: nat)
    ensures n >= 1 && n >= CountAvailable(rooms)
    ensures CountAvailable(rooms) > 0 ==> n == CountAvailable(rooms)
    ensures CountAvailable(rooms) == 0 ==> n == 1
  {
    if CountAvailable(rooms) == 0 then 1 else CountAvailable(rooms)
  }

  /** slots_total: six slots per counted room. */
  function SlotsTotal(rooms: seq<Room>): (n: nat)
    ensures n >= SlotsPerDay && n % SlotsPerDay == 0
    ensures n / SlotsPerDay == RoomsTotal(rooms)
  {
    RoomsTotal(rooms) * 6
  }

  /**
   * load_class.  Without capacity awareness the tier follows the raw count;
   * with it, the ratio of the count to slotsTotal, its float comparisons with
   * 0.33 and 0.66 written as exact integer cross-multiplications.
   */
  function LoadClass(n: nat, capacityAware: bool, slotsTotal: nat): (tier: LoadTier)
    requires slotsTotal >= 1
    ensures tier == Load0 <==> n == 0
    ensures capacityAware && n > 0 ==> (tier == Load1 <==> 100 * n <= 33 * slotsTotal)
    ensures capacityAware ==> (tier == Load2 <==> 33 * slotsTotal < 100 * n <= 66 * slotsTotal)
    ensures capacityAware ==> (tier == Load3 <==> 100 * n > 66 * slotsTotal)
  {
    if !capacityAware then
      if n == 0 then Load0
      else if n <= 2 then Load1
      else if n <= 4 then Load2
      else Load3
    else
      if n == 0 then Load0
      else if 100 * n <= 33 * slotsTotal then Load1
      else if 100 * n <= 66 * slotsTotal then Load2
      else Load3
  }

  /** The tiers of the plain count: 0, 1-2, 3-4, 5 and up. */
  lemma CountTiers(n: nat, slotsTotal: nat)
    requires slotsTotal >= 1
    ensures LoadClass(n, false, slotsTotal) == Load0 <==> n == 0
    ensures LoadClass(n, false, slotsTotal) == Load1 <==> 1 <= n <= 2
    ensures LoadClass(n, false, slotsTotal) == Load2 <==> 3 <= n <= 4
    ensures LoadClass(n, false, slotsTotal) == Load3 <==> n >= 5
  {
  }

  /** In either mode a day is empty-looking exactly when it has no event. */
  lemma EmptyTierIffNoEvents(n: nat, capacityAware: bool, slotsTotal: nat)
    requires slotsTotal >= 1
    ensures LoadClass(n, capacityAware, slotsTotal) == Load0 <==> n == 0
  {
  }

  /** More events never give a lighter tier, in either mode. */
  lemma LoadClassMonotone(n: nat, m: nat, capacityAware: bool, slotsTotal: nat)
    requires slotsTotal >= 1 && n <= m
    ensures Rank(LoadClass(n, capacityAware, slotsTotal)) <= Rank(LoadClass(m, capacityAware, slotsTotal))
  {
  }

  /** A fully booked day (every slot of every counted room taken) is heavy. */
  lemma FullDayIsHeavy(rooms: seq<Room>)
    ensures LoadClass(SlotsTotal(rooms), true, SlotsTotal(rooms)) == Load3
  {
  }

  /** The number of events, pending or approved, on date d. */
  function CountOn(store: Store, d: Date): (c: nat)
    ensures c == 0 <==> forall id :: id in store ==> store[id].date != d
  {
    var on := set id | id in store && store[id].date == d;
    assert forall id :: id in store && store[id].date == d ==> id in on;
    |on|
  }

  /** One day of the month grid. */
  datatype DayCell = DayCell(date: Date, inMonth: bool, count: nat, cls: LoadTier)

  datatype MonthView = MonthView(year: int, month: int, weeks: seq<seq<DayCell>>, roomsTotal: nat, slotsTotal: nat)

  ghost predicate ShowsDay(c: DayCell, d: Date, month: int, store: Store, slotsTotal: nat, capacityAware: bool)
    requires slotsTotal >= 1
  {
    c.date == d && c.inMonth == (d.month == month) && c.count == CountOn(store, d) &&
    c.cls == LoadClass(c.count, capacityAware, slotsTotal)
  }

  /**
   * _month_grid: one cell per visible day, week by week, each with its event
   * count and load tier.  The weeks shown (whole weeks starting on Sunday) are
   * given by the caller.
   */
  method MonthGrid(year: int, month: int, weeks: seq<seq<Date>>, store: Store, rooms: seq<Room>, capacityAware: bool)
    returns (v: MonthView)
    ensures v.year == year && v.month == month
    ensures v.roomsTotal == RoomsTotal(rooms) && v.slotsTotal == SlotsTotal(rooms)
    ensures |v.weeks| == |weeks|
    ensures forall i :: 0 <= i < |weeks| ==> |v.weeks[i]| == |weeks[i]|
    ensures forall i, j :: 0 <= i < |weeks| && 0 <= j < |weeks[i]| ==>
      ShowsDay(v.weeks[i][j], weeks[i][j], month, store, v.slotsTotal, capacityAware)
  {
    var roomsTotal := RoomsTotal(rooms);
    var slotsTotal := roomsTotal * 6;
    var grid: seq<seq<DayCell>> := [];
    var i := 0;
    while i < |weeks|
      invariant 0 <= i <= |weeks| && |grid| == i
      invariant forall k :: 0 <= k < i ==> |grid[k]| == |weeks[k]|
      invariant forall k, j :: 0 <= k < i && 0 <= j < |weeks[k]| ==>
        ShowsDay(grid[k][j], weeks[k][j], month, store, slotsTotal, capacityAware)
    {
      var week := weeks[i];
      var row: seq<DayCell> := [];
      var j := 0;
      while j < |week|
        invariant 0 <= j <= |week| && |row| == j
        invariant forall k :: 0 <= k < j ==> ShowsDay(row[k], week[k], month, store, slotsTotal, capacityAware)
      {
        var d := week[j];
        var count := CountOn(store, d);
        row := row + [DayCell(d, d.month == month, count, LoadClass(count, capacityAware, slotsTotal))];
        j := j + 1;
      }
      grid := grid + [row];
      i := i + 1;
    }
    v := MonthView(year, month, grid, roomsTotal, slotsTotal);
  }

  /** The month after (year, month), as the index page shows it beside the current one. */
  function NextMonth(year: int, month: int): (r: (int, int))
    requires 1 <= month <= 12
    ensures 1 <= r.1 <= 12
    ensures r.0 * 12 + (r.1 - 1) == year * 12 + (month - 1) + 1
  {
    if month == 12 then (year + 1, 1) else (year, month + 1)
  }

  /** One room at one hour of the day view. */
  datatype RoomCell = RoomCell(roomId: RoomId, roomName: string, event: Option<Event>, booked: bool)

  datatype HourRow = HourRow(hour: nat, cells: seq<RoomCell>)

  /** An event on date d in the given room whose start has the given hour (minutes are not compared). */
  predicate AtHour(e: Event, d: Date, room: RoomId, hour: nat)
  {
    e.date == d && e.room == room && e.time.hour == hour
  }

  /** The cell shows one of the events at that room and hour, and is booked exactly when there is one. */
  ghost predicate ShowsRoomHour(c: RoomCell, store: Store, d: Date, r: Room, hour: nat)
  {
    c.roomId == r.id && c.roomName == r.name && c.booked == c.event.Some? &&
    (c.event.Some? ==> c.event.value in store.Values && AtHour(c.event.value, d, r.id, hour)) &&
    (c.event.None? ==> forall id :: id in store ==> !AtHour(store[id], d, r.id, hour))
  }

  /**
   * DayView.get: index the day's events by (room, hour), the last one read
   * winning, then lay out one row per start hour and one cell per room.
   */
  method DayGrid(d: Date, rooms: seq<Room>, store: Store) returns (rows: seq<HourRow>)
    ensures |rows| == |ValidHours|
    ensures forall i :: 0 <= i < |rows| ==> rows[i].hour == ValidHours[i] && |rows[i].cells| == |rooms|
    ensures forall i, j :: 0 <= i < |rows| && 0 <= j < |rooms| ==>
      ShowsRoomHour(rows[i].cells[j], store, d, rooms[j], ValidHours[i])
  {
    var byKey: map<(RoomId, nat), Event> := map[];
    var unread := store.Keys;
    while unread != {}
      invariant unread <= store.Keys
      invariant forall k :: k in byKey ==> byKey[k] in store.Values && AtHour(byKey[k], d, k.0, k.1)
      invariant forall id :: id in store && id !in unread && store[id].date == d ==>
        (store[id].room, store[id].time.hour) in byKey
      decreases unread
    {
      var id :| id in unread;
      var e := store[id];
      if e.date == d {
        byKey := byKey[(e.room, e.time.hour) := e];
      }
      unread := unread - {id};
    }

    rows := [];
    var i := 0;
    while i < |ValidHours|
      invariant 0 <= i <= |ValidHours| && |rows| == i
      invariant forall k :: 0 <= k < i ==> rows[k].hour == ValidHours[k] && |rows[k].cells| == |rooms|
      invariant forall k, j :: 0 <= k < i && 0 <= j < |rooms| ==>
        ShowsRoomHour(rows[k].cells[j], store, d, rooms[j], ValidHours[k])
    {
      var h := ValidHours[i];
      var cells: seq<RoomCell> := [];
      var j := 0;
      while j < |rooms|
        invariant 0 <= j <= |rooms| && |cells| == j
        invariant forall k :: 0 <= k < j ==> ShowsRoomHour(cells[k], store, d, rooms[k], h)
      {
        var r := rooms[j];
        var e := if (r.id, h) in byKey then Some(byKey[(r.id, h)]) else None;
        cells := cells + [RoomCell(r.id, r.name, e, e.Some?)];
        j := j + 1;
      }
      rows := rows + [HourRow(h, cells)];
      i := i + 1;
    }
  }
}
