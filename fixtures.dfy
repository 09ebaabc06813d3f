/** Fixture seeding (`add_fixtures`): insert each fixture room whose name is
    not yet in the `room` table. */
module Fixtures {
  import opened Entities

  /** A fixture: the fields of a room without its id. */
  datatype Fixture = Fixture(name: string, capacity: int, projector: bool, sound: bool)

  /** The ten fixture rooms, in order; no two share a name. */
  function FixtureRooms(): (fs: seq<Fixture>)
    ensures |fs| == 10 && NamesDistinct(fs)
  {
    [
      Fixture("Conference Room A", 10, true, true),
      Fixture("Conference Room B", 20, false, true),
      Fixture("Meeting Room 1", 5, false, false),
      Fixture("Meeting Room 2", 8, true, false),
      Fixture("Board Room", 15, true, true),
      Fixture("Training Room", 25, true, true),
      Fixture("Lounge", 7, false, true),
      Fixture("Executive Suite", 4, true, false),
      Fixture("Workshop Room", 12, false, true),
      Fixture("Interview Room", 3, false, false)
    ]
  }

  /** `Room.query.filter_by(name=name).first()` finds a row. */
  predicate HasName(t: seq<Room>, name: string) {
    exists k :: 0 <= k < |t| && t[k].name == name
  }

  predicate IdsUnique(t: seq<Room>) {
    forall i, j :: 0 <= i < j < |t| ==> t[i].id != t[j].id
  }

  /** The largest id in the table, or 0 for an empty table. */
  function MaxId(t: seq<Room>): (m: int)
    ensures forall k :: 0 <= k < |t| ==> t[k].id <= m
    ensures t != [] ==> exists k :: 0 <= k < |t| && t[k].id == m
    ensures t == [] ==> m == 0
  {
    if t == [] then 0
    else if |t| == 1 then t[0].id
    else
      var m := MaxId(t[1..]);
      if t[0].id >= m then t[0].id else m
  }

  /** The primary key SQLite gives a new row: one more than the largest
      rowid in the table, or 1 when the table is empty. */
  function NextId(t: seq<Room>): (id: int)
    ensures forall k :: 0 <= k < |t| ==> t[k].id < id
    ensures t != [] ==> exists k :: 0 <= k < |t| && t[k].id + 1 == id
    ensures t == [] ==> id == 1
  {
    MaxId(t) + 1
  }

  /** `Room(**room)`: a row carrying exactly the fixture's fields. */
  function NewRoom(id: int, f: Fixture): Room {
    Room(id, f.name, f.capacity, f.projector, f.sound)
  }

  predicate Carries(r: Room, f: Fixture) {
    r.name == f.name && r.capacity == f.capacity && r.projector == f.projector && r.sound == f.sound
  }

  /** One iteration of the loop. */
  function AddOne(t: seq<Room>, f: Fixture): seq<Room> {
    if HasName(t, f.name) then t else t + [NewRoom(NextId(t), f)]
  }

  /** The table after the loop has handled every fixture of `fs`, in order. */
  function AddAll(t: seq<Room>, fs: seq<Fixture>): seq<Room> {
    if fs == [] then t else AddOne(AddAll(t, fs[..|fs| - 1]), fs[|fs| - 1])
  }

  /** Rows already in the table are neither changed nor removed. */
  lemma {:induction false} AddAllPrefix(t: seq<Room>, fs: seq<Fixture>)
    ensures |t| <= |AddAll(t, fs)| <= |t| + |fs|
    ensures AddAll(t, fs)[..|t|] == t
  {
    if fs != [] {
      var init, f := fs[..|fs| - 1], fs[|fs| - 1];
      AddAllPrefix(t, init);
      var p, r := AddAll(t, init), AddAll(t, fs);
      assert r == AddOne(p, f);
      assert r[..|p|] == p;
      assert r[..|t|] == p[..|t|];
    }
  }

  /** The lookup at each step sees the rows added earlier in the same run:
      every added row's name is absent from all the rows before it, so a
      run adds at most one row per name. */
  lemma {:induction false} AddAllFirstOfName(t: seq<Room>, fs: seq<Fixture>)
    ensures forall k :: |t| <= k < |AddAll(t, fs)| ==> !HasName(AddAll(t, fs)[..k], AddAll(t, fs)[k].name)
  {
    if fs != [] {
      var init, f := fs[..|fs| - 1], fs[|fs| - 1];
      AddAllFirstOfName(t, init);
      AddAllPrefix(t, init);
      var p, r := AddAll(t, init), AddAll(t, fs);
      assert r == AddOne(p, f);
      forall k | |t| <= k < |r| ensures !HasName(r[..k], r[k].name) {
        if k < |p| {
          assert r[..k] == p[..k] && r[k] == p[k];
        } else {
          assert r[..k] == p;
        }
      }
    }
  }

  /** `room` was added for some fixture of `fs` whose name `t` lacked. */
  predicate AddedFor(t: seq<Room>, fs: seq<Fixture>, room: Room) {
    exists i :: 0 <= i < |fs| && Carries(room, fs[i]) && !HasName(t, fs[i].name)
  }

  /** Every added row carries a fixture's fields, and only for a fixture
      whose name was absent from the table beforehand; ids stay unique. */
  lemma {:induction false} AddAllFrame(t: seq<Room>, fs: seq<Fixture>)
    ensures |t| <= |AddAll(t, fs)| <= |t| + |fs|
    ensures AddAll(t, fs)[..|t|] == t
    ensures forall k :: |t| <= k < |AddAll(t, fs)| ==> AddedFor(t, fs, AddAll(t, fs)[k])
    ensures IdsUnique(t) ==> IdsUnique(AddAll(t, fs))
  {
    AddAllPrefix(t, fs);
    AddAllKeepsIds(t, fs);
    var r := AddAll(t, fs);
    if fs != [] {
      var init, f := fs[..|fs| - 1], fs[|fs| - 1];
      var p := AddAll(t, init);
      AddAllFrame(t, init);
      assert r == AddOne(p, f);
      forall k | |t| <= k < |r| ensures AddedFor(t, fs, r[k]) {
        if k < |p| {
          assert r[k] == p[k];
          assert AddedFor(t, init, p[k]);
          var i :| 0 <= i < |init| && Carries(p[k], init[i]) && !HasName(t, init[i].name);
          assert fs[i] == init[i];
          assert 0 <= i < |fs| && Carries(r[k], fs[i]) && !HasName(t, fs[i].name);
        } else {
          AddedWasAbsent(t, p, f);
          var i := |fs| - 1;
          assert 0 <= i < |fs| && Carries(r[k], fs[i]) && !HasName(t, fs[i].name);
        }
      }
    }
  }

  /** Ids stay unique through the whole run. */
  lemma {:induction false} AddAllKeepsIds(t: seq<Room>, fs: seq<Fixture>)
    ensures IdsUnique(t) ==> IdsUnique(AddAll(t, fs))
  {
    if fs != [] && IdsUnique(t) {
      AddAllKeepsIds(t, fs[..|fs| - 1]);
      AddOneKeepsIds(AddAll(t, fs[..|fs| - 1]), fs[|fs| - 1]);
    }
  }

  lemma AddedWasAbsent(t: seq<Room>, p: seq<Room>, f: Fixture)
    requires |t| <= |p| && p[..|t|] == t
    requires !HasName(p, f.name)
    ensures !HasName(t, f.name)
  {
  }

  lemma AddOneKeepsIds(p: seq<Room>, f: Fixture)
    requires IdsUnique(p)
    ensures IdsUnique(AddOne(p, f))
  {
    var r := AddOne(p, f);
    if r != p {
      forall i, j | 0 <= i < j < |r| ensures r[i].id != r[j].id {
        if j == |p| {
          assert r[i] == p[i];
        } else {
          assert r[i] == p[i] && r[j] == p[j];
        }
      }
    }
  }

  /** Afterwards every fixture name has a room. */
  lemma {:induction false} AddAllCovers(t: seq<Room>, fs: seq<Fixture>)
    ensures forall i :: 0 <= i < |fs| ==> HasName(AddAll(t, fs), fs[i].name)
  {
    if fs != [] {
      var init, f := fs[..|fs| - 1], fs[|fs| - 1];
      var p := AddAll(t, init);
      AddAllCovers(t, init);
      AddAllFrame(p, [f]);
      assert [f][..0] == [];
      assert AddAll(p, [f]) == AddAll(t, fs);
      forall i | 0 <= i < |fs| ensures HasName(AddAll(t, fs), fs[i].name) {
        var r := AddAll(t, fs);
        if i < |init| {
          assert fs[i] == init[i];
          var j :| 0 <= j < |p| && p[j].name == init[i].name;
          assert r[j] == p[j];
        } else if !HasName(p, f.name) {
          assert r[|p|].name == f.name;
        }
      }
    }
  }

  /** A table that already has every fixture name is left as it is. */
  lemma {:induction false} AddAllPresent(t: seq<Room>, fs: seq<Fixture>)
    requires forall i :: 0 <= i < |fs| ==> HasName(t, fs[i].name)
    ensures AddAll(t, fs) == t
  {
    if fs != [] {
      AddAllPresent(t, fs[..|fs| - 1]);
    }
  }

  /** Running the seeding twice leaves the table as after one run. */
  lemma AddAllIdempotent(t: seq<Room>, fs: seq<Fixture>)
    ensures AddAll(AddAll(t, fs), fs) == AddAll(t, fs)
  {
    AddAllCovers(t, fs);
    AddAllPresent(AddAll(t, fs), fs);
  }

  predicate NamesDistinct(fs: seq<Fixture>) {
    forall i, j :: 0 <= i < j < |fs| ==> fs[i].name != fs[j].name
  }

  /** Fixtures with distinct names, none of them in the table, are all added. */
  lemma {:induction false} AddAllFresh(t: seq<Room>, fs: seq<Fixture>)
    requires NamesDistinct(fs)
    requires forall i :: 0 <= i < |fs| ==> !HasName(t, fs[i].name)
    ensures |AddAll(t, fs)| == |t| + |fs|
  {
    if fs != [] {
      var init, f := fs[..|fs| - 1], fs[|fs| - 1];
      AddAllFresh(t, init);
      var p := AddAll(t, init);
      AddAllFrame(t, init);
      forall j | 0 <= j < |p| ensures p[j].name != f.name {
        if j < |t| {
          assert p[j] == t[j];
        } else {
          assert AddedFor(t, init, p[j]);
          var i :| 0 <= i < |init| && Carries(p[j], init[i]) && !HasName(t, init[i].name);
          assert fs[i] == init[i];
        }
      }
    }
  }

  /** Seeding an empty table adds all ten rooms. */
  lemma SeedEmptyTable()
    ensures |AddAll([], FixtureRooms())| == 10
  {
    AddAllFresh([], FixtureRooms());
  }

  /** The `room` table. */
  class RoomTable {
    var rooms: seq<Room>

    predicate Valid()
      reads this
    {
      IdsUnique(rooms)
    }

    constructor (initial: seq<Room>)
      requires IdsUnique(initial)
      ensures Valid() && rooms == initial
    {
      rooms := initial;
    }

    /** `add_fixtures`: for each fixture in order, add a room unless one with
        that name is already present (rows added earlier in the same run
        count as present), then commit. */
    method AddFixtures()
      requires Valid()
      modifies this
      ensures Valid()
      ensures rooms == AddAll(old(rooms), FixtureRooms())
      ensures |old(rooms)| <= |rooms| && rooms[..|old(rooms)|] == old(rooms)
      ensures forall i :: 0 <= i < |FixtureRooms()| ==> HasName(rooms, FixtureRooms()[i].name)
      ensures AddAll(rooms, FixtureRooms()) == rooms
      ensures forall k :: |old(rooms)| <= k < |rooms| ==> !HasName(rooms[..k], rooms[k].name)
    {
      var i := 0;
      while i < |FixtureRooms()|
        invariant 0 <= i <= |FixtureRooms()|
        invariant rooms == AddAll(old(rooms), FixtureRooms()[..i])
      {
        var room := FixtureRooms()[i];
        assert FixtureRooms()[..i + 1][..i] == FixtureRooms()[..i];
        if !HasName(rooms, room.name) {
          rooms := rooms + [NewRoom(NextId(rooms), room)];
        }
        i := i + 1;
      }
      assert FixtureRooms()[..i] == FixtureRooms();
      AddAllFrame(old(rooms), FixtureRooms());
      AddAllCovers(old(rooms), FixtureRooms());
      AddAllIdempotent(old(rooms), FixtureRooms());
      AddAllFirstOfName(old(rooms), FixtureRooms());
    }
  }
}
