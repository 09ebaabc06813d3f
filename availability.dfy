/** The availability calculator: which bookings are fetched for a room and
    a date, which grid slots they block, and the two read endpoints
    (`get_rooms` and `get_availability`) that run the hourly slot loop. */
module Availability {
  import opened Slots
  import opened Entities

  /** `any(overlap(booking, slot) for booking in bookings)`. */
  function IsBooked(bs: seq<Booking>, s: int, e: int): (r: bool)
    ensures r <==> exists k :: 0 <= k < |bs| && Overlaps(bs[k].start, bs[k].end, s, e)
  {
    if bs == [] then false
    else Overlaps(bs[0].start, bs[0].end, s, e) || IsBooked(bs[1..], s, e)
  }

  /** No booking of `bs` meets the slot at hour `h` of day `d`. */
  predicate SlotFree(bs: seq<Booking>, d: int, h: nat) {
    !IsBooked(bs, SlotStart(d, h), SlotEnd(d, h))
  }

  /** The free grid hours below `h`, in ascending order: what the slot loop
      has appended once it has passed hour `h - 1`. */
  function FreeBelow(bs: seq<Booking>, d: int, h: nat): seq<nat> {
    if h <= OpenHour then []
    else FreeBelow(bs, d, h - 1) + (if SlotFree(bs, d, h - 1) then [h - 1] else [])
  }

  /** The `available_slots` of day `d` given the bookings fetched for it. */
  function Available(bs: seq<Booking>, d: int): seq<nat> {
    FreeBelow(bs, d, CloseHour)
  }

  /** The response: each available slot rendered with `strftime('%H:%M')`. */
  function SlotLabels(bs: seq<Booking>, d: int): seq<string> {
    AvailableOrdered(bs, d);
    Labels(Available(bs, d))
  }

  predicate StrictlyAscending(s: seq<nat>) {
    forall j, k :: 0 <= j < k < |s| ==> s[j] < s[k]
  }

  lemma {:induction false} FreeBelowMembers(bs: seq<Booking>, d: int, h: nat)
    ensures forall x :: x in FreeBelow(bs, d, h) <==> OpenHour <= x < h && SlotFree(bs, d, x)
  {
    if h > OpenHour {
      FreeBelowMembers(bs, d, h - 1);
      var p := FreeBelow(bs, d, h - 1);
      var last: seq<nat> := if SlotFree(bs, d, h - 1) then [h - 1] else [];
      assert FreeBelow(bs, d, h) == p + last;
      assert forall x :: x in p + last <==> x in p || x in last;
    }
  }

  lemma {:induction false} FreeBelowAscending(bs: seq<Booking>, d: int, h: nat)
    ensures forall k :: 0 <= k < |FreeBelow(bs, d, h)| ==> OpenHour <= FreeBelow(bs, d, h)[k] < h
    ensures StrictlyAscending(FreeBelow(bs, d, h))
  {
    if h > OpenHour {
      FreeBelowAscending(bs, d, h - 1);
      var p := FreeBelow(bs, d, h - 1);
      var last: seq<nat> := if SlotFree(bs, d, h - 1) then [h - 1] else [];
      var r := p + last;
      assert FreeBelow(bs, d, h) == r;
      forall j, k | 0 <= j < k < |r| ensures r[j] < r[k] {
        if k < |p| {
          assert r[j] == p[j] && r[k] == p[k];
        } else {
          assert r[j] == p[j] && r[k] == h - 1;
        }
      }
    }
  }

  /** Both facts about the loop's output. */
  lemma FreeBelowSpec(bs: seq<Booking>, d: int, h: nat)
    ensures forall x :: x in FreeBelow(bs, d, h) <==> OpenHour <= x < h && SlotFree(bs, d, x)
    ensures StrictlyAscending(FreeBelow(bs, d, h))
  {
    FreeBelowMembers(bs, d, h);
    FreeBelowAscending(bs, d, h);
  }

  /** Partition: a grid slot is listed as available exactly when no fetched
      booking overlaps it; a slot outside the grid is never listed. */
  lemma AvailableIff(bs: seq<Booking>, d: int, h: nat)
    ensures h in Available(bs, d) <==> InGrid(h) && !IsBooked(bs, SlotStart(d, h), SlotEnd(d, h))
    ensures InGrid(h) ==> (h in Available(bs, d) <==>
              !(exists k :: 0 <= k < |bs| && Overlaps(bs[k].start, bs[k].end, SlotStart(d, h), SlotEnd(d, h))))
  {
    FreeBelowSpec(bs, d, CloseHour);
  }

  /** The output is strictly ascending (so duplicate-free) and every entry is
      a grid hour, so it is a subsequence of the grid. */
  lemma AvailableOrdered(bs: seq<Booking>, d: int)
    ensures StrictlyAscending(Available(bs, d))
    ensures |Available(bs, d)| <= |Grid()|
    ensures forall k :: 0 <= k < |Available(bs, d)| ==> InGrid(Available(bs, d)[k])
  {
    var r := Available(bs, d);
    FreeBelowSpec(bs, d, CloseHour);
    AscendingInGridBound(r);
  }

  lemma {:induction false} AscendingInGridBound(r: seq<nat>)
    requires StrictlyAscending(r)
    requires forall x :: x in r ==> InGrid(x)
    ensures |r| <= CloseHour - OpenHour
    ensures forall k :: 0 <= k < |r| ==> InGrid(r[k])
  {
    if |r| > 0 {
      var last := r[|r| - 1];
      forall k | 0 <= k < |r| ensures OpenHour + k <= r[k] {
        AscendingFloor(r, k);
      }
      assert last in r;
      assert OpenHour + |r| - 1 <= last < CloseHour;
    }
  }

  lemma {:induction false} AscendingFloor(r: seq<nat>, k: nat)
    requires StrictlyAscending(r)
    requires forall x :: x in r ==> InGrid(x)
    requires k < |r|
    ensures OpenHour + k <= r[k]
  {
    if k > 0 {
      AscendingFloor(r, k - 1);
      assert r[k - 1] < r[k];
    } else {
      assert r[0] in r;
    }
  }

  /** The rendered labels are in strictly ascending string order (so
      distinct) and each is one of the grid's labels. */
  lemma SlotLabelsAscending(bs: seq<Booking>, d: int)
    ensures forall j, k :: 0 <= j < k < |SlotLabels(bs, d)| ==> StrLess(SlotLabels(bs, d)[j], SlotLabels(bs, d)[k])
    ensures forall k :: 0 <= k < |SlotLabels(bs, d)| ==> SlotLabels(bs, d)[k] in Labels(Grid())
  {
    var hs, ls := Available(bs, d), SlotLabels(bs, d);
    AvailableOrdered(bs, d);
    GridShape(d);
    forall j, k | 0 <= j < k < |ls| ensures StrLess(ls[j], ls[k]) {
      LabelOrder(hs[j], hs[k]);
    }
    forall k | 0 <= k < |ls| ensures ls[k] in Labels(Grid()) {
      assert Grid()[hs[k] - OpenHour] == hs[k];
      assert Labels(Grid())[hs[k] - OpenHour] == ls[k];
    }
  }

  /** Two booking lists that block the same slots give the same output. */
  lemma {:induction false} FreeBelowExt(bs: seq<Booking>, cs: seq<Booking>, d: int, h: nat)
    requires forall x: nat :: OpenHour <= x < h ==> SlotFree(bs, d, x) == SlotFree(cs, d, x)
    ensures FreeBelow(bs, d, h) == FreeBelow(cs, d, h)
  {
    if h > OpenHour {
      FreeBelowExt(bs, cs, d, h - 1);
    }
  }

  /** With no bookings every slot is free: all nine hours, 09:00 included. */
  lemma AvailableNoBookings(d: int)
    ensures Available([], d) == Grid()
    ensures SlotLabels([], d) == ["09:00", "10:00", "11:00", "12:00", "13:00", "14:00", "15:00", "16:00", "17:00"]
    ensures "09:00" in SlotLabels([], d)
  {
    GridLabels();
    assert FreeBelow([], d, 9) == [];
    assert FreeBelow([], d, 10) == [9];
    assert FreeBelow([], d, 11) == [9, 10];
    assert FreeBelow([], d, 12) == [9, 10, 11];
    assert FreeBelow([], d, 13) == [9, 10, 11, 12];
    assert FreeBelow([], d, 14) == [9, 10, 11, 12, 13];
    assert FreeBelow([], d, 15) == [9, 10, 11, 12, 13, 14];
    assert FreeBelow([], d, 16) == [9, 10, 11, 12, 13, 14, 15];
    assert FreeBelow([], d, 17) == [9, 10, 11, 12, 13, 14, 15, 16];
  }

  /** Adding bookings never frees a slot: if every booking of `bs` is also in
      `cs`, each slot available under `cs` is available under `bs`. */
  lemma AvailableMonotone(bs: seq<Booking>, cs: seq<Booking>, d: int)
    requires forall k :: 0 <= k < |bs| ==> bs[k] in cs
    ensures forall h :: h in Available(cs, d) ==> h in Available(bs, d)
  {
    forall h | h in Available(cs, d) ensures h in Available(bs, d) {
      AvailableIff(cs, d, h);
      AvailableIff(bs, d, h);
    }
  }

  /** Appending one booking removes exactly the slots it overlaps. */
  lemma AvailableAppend(bs: seq<Booking>, b: Booking, d: int, h: nat)
    ensures h in Available(bs + [b], d) <==>
              h in Available(bs, d) && !Overlaps(b.start, b.end, SlotStart(d, h), SlotEnd(d, h))
  {
    AvailableIff(bs, d, h);
    AvailableIff(bs + [b], d, h);
    var s, e := SlotStart(d, h), SlotEnd(d, h);
    if IsBooked(bs, s, e) {
      var k :| 0 <= k < |bs| && Overlaps(bs[k].start, bs[k].end, s, e);
      assert (bs + [b])[k] == bs[k];
    }
    if Overlaps(b.start, b.end, s, e) {
      assert (bs + [b])[|bs|] == b;
    }
    if IsBooked(bs + [b], s, e) {
      var k :| 0 <= k < |bs + [b]| && Overlaps((bs + [b])[k].start, (bs + [b])[k].end, s, e);
      if k < |bs| { assert (bs + [b])[k] == bs[k]; }
    }
  }

  /** A booking 09:30-10:30 blocks the 09:00 and 10:00 slots and no other. */
  lemma HalfHourBookingExample(d: int, r: int, c: nat)
    ensures Available([Booking(r, DayStart(d) + 9 * Hour + 30 * Minute, DayStart(d) + 10 * Hour + 30 * Minute, c)], d)
            == [11, 12, 13, 14, 15, 16, 17]
  {
    var bs := [Booking(r, DayStart(d) + 9 * Hour + 30 * Minute, DayStart(d) + 10 * Hour + 30 * Minute, c)];
    assert FreeBelow(bs, d, 9) == [];
    assert !SlotFree(bs, d, 9);
    assert FreeBelow(bs, d, 10) == [];
    assert !SlotFree(bs, d, 10);
    assert FreeBelow(bs, d, 11) == [];
    assert SlotFree(bs, d, 11) && FreeBelow(bs, d, 12) == [11];
    assert SlotFree(bs, d, 12) && FreeBelow(bs, d, 13) == [11, 12];
    assert SlotFree(bs, d, 13) && FreeBelow(bs, d, 14) == [11, 12, 13];
    assert SlotFree(bs, d, 14) && FreeBelow(bs, d, 15) == [11, 12, 13, 14];
    assert SlotFree(bs, d, 15) && FreeBelow(bs, d, 16) == [11, 12, 13, 14, 15];
    assert SlotFree(bs, d, 16) && FreeBelow(bs, d, 17) == [11, 12, 13, 14, 15, 16];
    assert SlotFree(bs, d, 17);
  }

  /** The bookings of `roomId` whose start lies in [lo, hi). The source
      fetches by start instant only, never by end. */
  function FetchDay(bs: seq<Booking>, roomId: int, lo: int, hi: int): (r: seq<Booking>)
    ensures forall b :: b in r <==> b in bs && b.roomId == roomId && lo <= b.start < hi
    ensures |r| <= |bs|
  {
    if bs == [] then []
    else
      var rest := FetchDay(bs[1..], roomId, lo, hi);
      assert forall b :: b in bs <==> b == bs[0] || b in bs[1..];
      if bs[0].roomId == roomId && lo <= bs[0].start < hi then [bs[0]] + rest else rest
  }

  /** `get_rooms`: `start_time >= midnight` and `start_time < 23:59:59.999999`. */
  function FetchForRooms(bs: seq<Booking>, roomId: int, d: int): (r: seq<Booking>)
    ensures forall b :: b in r <==> b in bs && b.roomId == roomId && DayStart(d) <= b.start < DayLast(d)
  {
    FetchDay(bs, roomId, DayStart(d), DayLast(d))
  }

  /** `get_availability`: `start_time.between(midnight, 23:59:59.999999)`,
      both ends included. */
  function FetchForAvailability(bs: seq<Booking>, roomId: int, d: int): (r: seq<Booking>)
    ensures forall b :: b in r <==> b in bs && b.roomId == roomId && DayStart(d) <= b.start <= DayLast(d)
  {
    FetchDay(bs, roomId, DayStart(d), DayLast(d) + 1)
  }

  /** The free hours `get_availability` reports for a room and a date. */
  function AvailabilityFor(bs: seq<Booking>, roomId: int, d: int): seq<nat> {
    Available(FetchForAvailability(bs, roomId, d), d)
  }

  /** The two endpoints fetch slightly different sets (a booking starting at
      23:59:59.999999 is fetched by one only), yet report the same slots. */
  lemma FetchFiltersAgree(bs: seq<Booking>, roomId: int, d: int)
    ensures Available(FetchForRooms(bs, roomId, d), d) == AvailabilityFor(bs, roomId, d)
  {
    var xs, ys := FetchForRooms(bs, roomId, d), FetchForAvailability(bs, roomId, d);
    forall x: nat | OpenHour <= x < CloseHour ensures SlotFree(xs, d, x) == SlotFree(ys, d, x) {
      var s, e := SlotStart(d, x), SlotEnd(d, x);
      if IsBooked(ys, s, e) {
        var k :| 0 <= k < |ys| && Overlaps(ys[k].start, ys[k].end, s, e);
        assert ys[k] in ys;
        assert ys[k] in xs;
      }
      if IsBooked(xs, s, e) {
        var k :| 0 <= k < |xs| && Overlaps(xs[k].start, xs[k].end, s, e);
        assert xs[k] in xs;
        assert xs[k] in ys;
      }
    }
    FreeBelowExt(xs, ys, d, CloseHour);
  }

  /** A booking that starts at 23:59:59.999999 is fetched by
      `get_availability` but not by `get_rooms`. */
  lemma LastInstantFetchedOnce(roomId: int, d: int, c: nat)
    ensures var b := Booking(roomId, DayLast(d), DayLast(d) + Hour, c);
            b !in FetchForRooms([b], roomId, d) && b in FetchForAvailability([b], roomId, d)
  {
  }

  /** Only bookings whose start lies on the date matter: another room's
      booking, or one starting on another day, never changes the slots;
      not even one that began the evening before and still runs. */
  lemma OtherDayIgnored(bs: seq<Booking>, b: Booking, roomId: int, d: int)
    requires b.roomId != roomId || b.start < DayStart(d) || b.start > DayLast(d)
    ensures AvailabilityFor(bs + [b], roomId, d) == AvailabilityFor(bs, roomId, d)
    ensures Available(FetchForRooms(bs + [b], roomId, d), d) == Available(FetchForRooms(bs, roomId, d), d)
  {
    var xs, ys := FetchForAvailability(bs + [b], roomId, d), FetchForAvailability(bs, roomId, d);
    forall x: nat | OpenHour <= x < CloseHour ensures SlotFree(xs, d, x) == SlotFree(ys, d, x) {
      SameMembersSameBlocking(xs, ys, SlotStart(d, x), SlotEnd(d, x));
    }
    FreeBelowExt(xs, ys, d, CloseHour);
    FetchFiltersAgree(bs + [b], roomId, d);
    FetchFiltersAgree(bs, roomId, d);
  }

  lemma SameMembersSameBlocking(xs: seq<Booking>, ys: seq<Booking>, s: int, e: int)
    requires forall b :: b in xs <==> b in ys
    ensures IsBooked(xs, s, e) == IsBooked(ys, s, e)
  {
    if IsBooked(ys, s, e) {
      var k :| 0 <= k < |ys| && Overlaps(ys[k].start, ys[k].end, s, e);
      assert ys[k] in xs;
    }
    if IsBooked(xs, s, e) {
      var k :| 0 <= k < |xs| && Overlaps(xs[k].start, xs[k].end, s, e);
      assert xs[k] in ys;
    }
  }

  /** A booking from 23:00 the day before until 10:00 overlaps the 09:00
      slot, yet that slot is still reported free. */
  lemma OvernightBookingExample(roomId: int, d: int, c: nat)
    ensures Overlaps(DayStart(d) - Hour, DayStart(d) + 10 * Hour, SlotStart(d, 9), SlotEnd(d, 9))
    ensures 9 in AvailabilityFor([Booking(roomId, DayStart(d) - Hour, DayStart(d) + 10 * Hour, c)], roomId, d)
  {
    OtherDayIgnored([], Booking(roomId, DayStart(d) - Hour, DayStart(d) + 10 * Hour, c), roomId, d);
    AvailableNoBookings(d);
    assert [] + [Booking(roomId, DayStart(d) - Hour, DayStart(d) + 10 * Hour, c)]
        == [Booking(roomId, DayStart(d) - Hour, DayStart(d) + 10 * Hour, c)];
  }

  /** The slot loop `for hour in range(9, 18)` shared by both endpoints. */
  method AvailableSlots(dayBookings: seq<Booking>, d: int) returns (slots: seq<nat>)
    ensures slots == Available(dayBookings, d)
    ensures forall k :: 0 <= k < |slots| ==> InGrid(slots[k])
    ensures forall h :: h in slots <==> InGrid(h) && !IsBooked(dayBookings, SlotStart(d, h), SlotEnd(d, h))
    ensures StrictlyAscending(slots)
  {
    slots := [];
    var hour: nat := OpenHour;
    while hour < CloseHour
      invariant OpenHour <= hour <= CloseHour
      invariant slots == FreeBelow(dayBookings, d, hour)
    {
      var startTime := SlotStart(d, hour);
      var endTime := startTime + Hour;
      var isBooked := IsBooked(dayBookings, startTime, endTime);
      if !isBooked {
        slots := slots + [hour];
      }
      hour := hour + 1;
    }
    forall h ensures h in slots <==> InGrid(h) && !IsBooked(dayBookings, SlotStart(d, h), SlotEnd(d, h)) {
      AvailableIff(dayBookings, d, h);
    }
    AvailableOrdered(dayBookings, d);
  }

  /** `get_availability`: a malformed date (`None`) is rejected first, then an
      unknown room; otherwise the free slots of that room on that date. */
  method GetAvailability(rooms: seq<Room>, bookings: seq<Booking>, roomId: int, date: Option<int>)
    returns (r: Result<seq<string>>)
    ensures date.None? ==> r == Err(InvalidDate)
    ensures date.Some? && FindRoom(rooms, roomId).None? ==> r == Err(RoomNotFound)
    ensures date.Some? && FindRoom(rooms, roomId).Some? ==>
              r == Ok(SlotLabels(FetchForAvailability(bookings, roomId, date.value), date.value))
  {
    if date.None? {
      return Err(InvalidDate);
    }
    var d := date.value;
    var room := FindRoom(rooms, roomId);
    if room.None? {
      return Err(RoomNotFound);
    }
    var dayBookings := FetchForAvailability(bookings, roomId, d);
    var slots := AvailableSlots(dayBookings, d);
    return Ok(Labels(slots));
  }

  /** One entry of the `get_rooms` response. */
  datatype RoomView = RoomView(id: int, name: string, capacity: int, projector: bool, sound: bool,
                               availableSlots: seq<string>)

  /** `get_rooms`: each listed room, in order, with its fields and its free
      slots for `today`, computed as `get_availability` would for that date. */
  method GetRooms(rooms: seq<Room>, bookings: seq<Booking>, today: int) returns (roomList: seq<RoomView>)
    ensures |roomList| == |rooms|
    ensures forall i :: 0 <= i < |rooms| ==>
              var rm := rooms[i];
              roomList[i] == RoomView(rm.id, rm.name, rm.capacity, rm.projector, rm.sound,
                                      SlotLabels(FetchForRooms(bookings, rm.id, today), today))
    ensures forall i :: 0 <= i < |rooms| ==>
              roomList[i].availableSlots == SlotLabels(FetchForAvailability(bookings, rooms[i].id, today), today)
  {
    roomList := [];
    var i := 0;
    while i < |rooms|
      invariant 0 <= i <= |rooms|
      invariant |roomList| == i
      invariant forall j :: 0 <= j < i ==>
                  roomList[j] == RoomView(rooms[j].id, rooms[j].name, rooms[j].capacity, rooms[j].projector,
                                          rooms[j].sound, SlotLabels(FetchForRooms(bookings, rooms[j].id, today), today))
    {
      var room := rooms[i];
      var dayBookings := FetchForRooms(bookings, room.id, today);
      var slots := AvailableSlots(dayBookings, today);
      roomList := roomList + [RoomView(room.id, room.name, room.capacity, room.projector, room.sound, Labels(slots))];
      i := i + 1;
    }
    forall i | 0 <= i < |rooms|
      ensures roomList[i].availableSlots == SlotLabels(FetchForAvailability(bookings, rooms[i].id, today), today)
    {
      FetchFiltersAgree(bookings, rooms[i].id, today);
    }
  }
}
