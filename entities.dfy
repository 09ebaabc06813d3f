/** The persistent entities (the `Room` and `Booking` tables) and the error
    outcomes of the request operations. */
module Entities {

  datatype Option<T> = None | Some(value: T)

  /** Client-visible failures: a malformed date, an unknown room id, and a
      booking that overlaps an existing one on the same room. */
  datatype Error = InvalidDate | RoomNotFound | Conflict

  datatype Result<T> = Ok(value: T) | Err(error: Error)

  /** A row of the `room` table. */
  datatype Room = Room(id: int, name: string, capacity: int, projector: bool, sound: bool)

  /** A row of the `booking` table: the room it reserves, its local start and
      end instants, and its confirmation code. */
  datatype Booking = Booking(roomId: int, start: int, end: int, code: nat)

  /** `Room.query.get(id)`: the room with that primary key, if any. */
  function FindRoom(rooms: seq<Room>, id: int): (r: Option<Room>)
    ensures r.Some? ==> r.value in rooms && r.value.id == id
    ensures r.None? <==> forall k :: 0 <= k < |rooms| ==> rooms[k].id != id
  {
    if rooms == [] then None
    else if rooms[0].id == id then Some(rooms[0])
    else FindRoom(rooms[1..], id)
  }
}
