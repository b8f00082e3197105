/** Room creation (app.py `create_room`), after the form has validated. The
    existence check compares the name exactly as submitted, while the new row
    stores the stripped name. */
module Rooms {
  import opened Text
  import opened Records

  /** The outcome of `create_room`: redirect to login (not authenticated),
      the "already exists" notice, or a new room under the given id. */
  datatype Creation = LoginRequired | AlreadyExists | Created(id: nat)

  /** Whether `create_room` refuses or creates, and under which id. */
  function CheckCreateRoom(users: seq<User>, rooms: seq<Room>, session: Option<nat>, name: string): Creation {
    if !IsAuthenticated(users, session) then LoginRequired
    else if FirstIndex(rooms, (r: Room) => r.name == name).Some? then AlreadyExists
    else Created(|rooms|)
  }

  /** The room table after `create_room`. */
  function CreateRoom(users: seq<User>, rooms: seq<Room>, session: Option<nat>, name: string, private: bool): seq<Room> {
    if CheckCreateRoom(users, rooms, session, name).Created? then rooms + [Room(Strip(name), private)]
    else rooms
  }

  /** No two rooms share a name. */
  ghost predicate UniqueNames(rooms: seq<Room>) {
    forall i, j :: 0 <= i < j < |rooms| ==> rooms[i].name != rooms[j].name
  }

  /** An authenticated creation adds nothing when a room has the submitted
      name exactly, and otherwise appends exactly one room, under the stripped
      name, with the submitted visibility. */
  lemma CreateRoomOutcomes(users: seq<User>, rooms: seq<Room>, session: Option<nat>, name: string, private: bool)
    ensures !IsAuthenticated(users, session) ==>
      CheckCreateRoom(users, rooms, session, name) == LoginRequired && CreateRoom(users, rooms, session, name, private) == rooms
    ensures IsAuthenticated(users, session) && (exists i :: 0 <= i < |rooms| && rooms[i].name == name) ==>
      CheckCreateRoom(users, rooms, session, name) == AlreadyExists && CreateRoom(users, rooms, session, name, private) == rooms
    ensures IsAuthenticated(users, session) && (forall i :: 0 <= i < |rooms| ==> rooms[i].name != name) ==>
      var after := CreateRoom(users, rooms, session, name, private);
      CheckCreateRoom(users, rooms, session, name) == Created(|rooms|) &&
      |after| == |rooms| + 1 && after[..|rooms|] == rooms && after[|rooms|] == Room(Strip(name), private)
  {
  }

  /** Creation keeps room names unique exactly when the submitted name is
      taken as is (nothing is added) or its stripped form is still free; a
      name that differs from a stored one only by surrounding whitespace
      passes the check and stores a duplicate. */
  lemma UniqueNamesKeptIff(users: seq<User>, rooms: seq<Room>, session: Option<nat>, name: string, private: bool)
    requires UniqueNames(rooms) && IsAuthenticated(users, session)
    ensures UniqueNames(CreateRoom(users, rooms, session, name, private)) <==>
      (exists i :: 0 <= i < |rooms| && rooms[i].name == name) ||
      (forall i :: 0 <= i < |rooms| ==> rooms[i].name != Strip(name))
  {
    var after := CreateRoom(users, rooms, session, name, private);
    CreateRoomOutcomes(users, rooms, session, name, private);
    if forall i :: 0 <= i < |rooms| ==> rooms[i].name != name {
      var n := |rooms|;
      assert forall i :: 0 <= i < n ==> after[i] == rooms[i];
      if exists i :: 0 <= i < n && rooms[i].name == Strip(name) {
        var i :| 0 <= i < n && rooms[i].name == Strip(name);
        assert after[i].name == after[n].name;
      }
    }
  }

  /** Concretely: with a room "lobby" stored, creating " lobby" passes the
      check and leaves two rooms named "lobby". */
  lemma PaddedNameDuplicates(admin: User)
    ensures var after := CreateRoom([admin], [Room("lobby", false)], Some(0), " lobby", false);
      |after| == 2 && after[0].name == after[1].name == "lobby"
  {
  }
}
