/** The booking store and `create_booking`: the conflict validator, the
    fresh confirmation code, and the store whose invariant is that no two
    bookings of one room overlap. */
module Bookings {
  import opened Slots
  import opened Entities

  /** Some booking of `roomId` in `bs` overlaps [s, e). */
  predicate Conflicts(bs: seq<Booking>, roomId: int, s: int, e: int) {
    exists k :: 0 <= k < |bs| && bs[k].roomId == roomId && Overlaps(bs[k].start, bs[k].end, s, e)
  }

  /** No two bookings of the same room overlap. */
  predicate NoOverlap(bs: seq<Booking>) {
    forall i, j :: 0 <= i < j < |bs| && bs[i].roomId == bs[j].roomId ==>
      !Overlaps(bs[i].start, bs[i].end, bs[j].start, bs[j].end)
  }

  /** The `code` column is `unique=True`. */
  predicate CodesUnique(bs: seq<Booking>) {
    forall i, j :: 0 <= i < j < |bs| ==> bs[i].code != bs[j].code
  }

  predicate StoreInvariant(bs: seq<Booking>) {
    NoOverlap(bs) && CodesUnique(bs)
  }

  function MaxCode(bs: seq<Booking>): (m: nat)
    ensures forall k :: 0 <= k < |bs| ==> bs[k].code <= m
    ensures bs != [] ==> exists k :: 0 <= k < |bs| && bs[k].code == m
  {
    if bs == [] then 0
    else
      var m := MaxCode(bs[1..]);
      if bs[0].code >= m then bs[0].code else m
  }

  /** A code no booking in the store carries yet (stands for `uuid.uuid4()`). */
  function FreshCode(bs: seq<Booking>): (c: nat)
    ensures forall k :: 0 <= k < |bs| ==> bs[k].code != c
  {
    MaxCode(bs) + 1
  }

  /** A booking the validator accepts, with a code not yet in use, keeps the
      store invariant when appended. */
  lemma AppendKeepsInvariant(bs: seq<Booking>, b: Booking)
    requires StoreInvariant(bs)
    requires !Conflicts(bs, b.roomId, b.start, b.end)
    requires forall k :: 0 <= k < |bs| ==> bs[k].code != b.code
    ensures StoreInvariant(bs + [b])
  {
  }

  /** An identical repeat of a stored non-empty booking is a conflict. */
  lemma RepeatConflicts(bs: seq<Booking>, k: nat)
    requires k < |bs| && bs[k].start < bs[k].end
    ensures Conflicts(bs, bs[k].roomId, bs[k].start, bs[k].end)
  {
  }

  /** One booking ending at 10:00 and another starting at 10:00 on the same
      room do not conflict; 10:00-11:00 and 10:30-11:30 do. */
  lemma BoundaryAndPartialExamples(roomId: int, d: int, c: nat)
    ensures !Conflicts([Booking(roomId, SlotStart(d, 9), SlotStart(d, 10), c)], roomId, SlotStart(d, 10), SlotStart(d, 11))
    ensures Conflicts([Booking(roomId, SlotStart(d, 10), SlotStart(d, 11), c)],
                      roomId, SlotStart(d, 10) + 30 * Minute, SlotStart(d, 11) + 30 * Minute)
  {
    var b := Booking(roomId, SlotStart(d, 10), SlotStart(d, 11), c);
    assert [b][0] == b;
  }

  /** `create_booking` as the source writes it: it appends unconditionally. */
  function InsertAsWritten(bs: seq<Booking>, roomId: int, utcStart: int, utcEnd: int): (r: seq<Booking>)
    ensures |r| == |bs| + 1 && r[..|bs|] == bs
    ensures r[|bs|].roomId == roomId && r[|bs|].end - r[|bs|].start == utcEnd - utcStart
    ensures r[|bs|].start == ToKolkata(utcStart) && r[|bs|].end == ToKolkata(utcEnd)
    ensures forall k :: 0 <= k < |bs| ==> bs[k].code != r[|bs|].code
  {
    bs + [Booking(roomId, ToKolkata(utcStart), ToKolkata(utcEnd), FreshCode(bs))]
  }

  /** Posting the same one-hour booking twice, as the conflict test does,
      leaves the as-written store holding two overlapping bookings. */
  lemma AsWrittenDoubleBooks(roomId: int, utcStart: int)
    ensures var once := InsertAsWritten([], roomId, utcStart, utcStart + Hour);
            var twice := InsertAsWritten(once, roomId, utcStart, utcStart + Hour);
            StoreInvariant(once) && !NoOverlap(twice)
  {
  }

  /** The `booking` table. */
  class BookingStore {
    var bookings: seq<Booking>

    predicate Valid()
      reads this
    {
      StoreInvariant(bookings)
    }

    constructor ()
      ensures Valid() && bookings == []
    {
      bookings := [];
    }

    /** `create_booking`: converts the UTC instants to Asia/Kolkata local
        time, rejects the booking when it overlaps one of the same room, and
        otherwise appends it under a fresh code and returns that code. */
    method CreateBooking(roomId: int, utcStart: int, utcEnd: int) returns (r: Result<nat>)
      requires Valid()
      modifies this
      ensures Valid()
      ensures r.Err? <==> Conflicts(old(bookings), roomId, ToKolkata(utcStart), ToKolkata(utcEnd))
      ensures r.Err? ==> r.error == Conflict && bookings == old(bookings)
      ensures r.Ok? ==> (forall k :: 0 <= k < |old(bookings)| ==> old(bookings)[k].code != r.value)
      ensures r.Ok? ==> bookings == old(bookings) + [Booking(roomId, ToKolkata(utcStart), ToKolkata(utcEnd), r.value)]
    {
      var localStart := ToKolkata(utcStart);
      var localEnd := ToKolkata(utcEnd);
      if Conflicts(bookings, roomId, localStart, localEnd) {
        return Err(Conflict);
      }
      var uniqueCode := FreshCode(bookings);
      var newBooking := Booking(roomId, localStart, localEnd, uniqueCode);
      AppendKeepsInvariant(bookings, newBooking);
      bookings := bookings + [newBooking];
      return Ok(uniqueCode);
    }
  }

  /** The conflict test: the first one-hour booking succeeds, the identical
      second one is rejected, and the store holds one booking. */
  method RepeatScenario(roomId: int, utcStart: int) returns (first: Result<nat>, second: Result<nat>, count: nat)
    ensures first.Ok? && second == Err(Conflict) && count == 1
  {
    var store := new BookingStore();
    first := store.CreateBooking(roomId, utcStart, utcStart + Hour);
    RepeatConflicts(store.bookings, 0);
    second := store.CreateBooking(roomId, utcStart, utcStart + Hour);
    count := |store.bookings|;
  }

  /** Back-to-back bookings 09:00-10:00 and 10:00-11:00 (UTC) both succeed. */
  method AdjacentScenario(roomId: int, d: int) returns (first: Result<nat>, second: Result<nat>, count: nat)
    ensures first.Ok? && second.Ok? && first.value != second.value && count == 2
  {
    var store := new BookingStore();
    first := store.CreateBooking(roomId, SlotStart(d, 9), SlotStart(d, 10));
    assert store.bookings[0].end == ToKolkata(SlotStart(d, 10));
    second := store.CreateBooking(roomId, SlotStart(d, 10), SlotStart(d, 11));
    count := |store.bookings|;
  }
}
