/** The application state app.py keeps in its database and hands to its
    socket layer, as one object: the user, room and message tables and the
    log of events emitted. Each request handler that writes a row is a method
    that follows the handler's own sequence of checks and is proved to agree
    with the decision functions of the other modules. */
module Server {
  import opened Text
  import opened Records
  import opened Accounts
  import opened Rooms
  import opened Messaging
  import opened Moderation

  class ChatServer {
    var users: seq<User>
    var rooms: seq<Room>
    var messages: seq<Message>
    var events: seq<Event>

    /** Every stored message refers to a stored room and a stored user. */
    ghost predicate Valid()
      reads this
    {
      forall i :: 0 <= i < |messages| ==> messages[i].room_id < |rooms| && messages[i].user_id < |users|
    }

    /** The author of stored message `i`. Its `user_id` foreign key
        resolves, so the author is a stored user. */
    function Author(i: nat): (u: User)
      reads this
      requires Valid() && i < |messages|
      ensures u in users
    {
      users[messages[i].user_id]
    }

    /** The room of stored message `i`. Its `room_id` foreign key resolves,
        so the room is a stored room. */
    function RoomOf(i: nat): (r: Room)
      reads this
      requires Valid() && i < |messages|
      ensures r in rooms
    {
      rooms[messages[i].room_id]
    }

    constructor ()
      ensures Valid()
      ensures users == [] && rooms == [] && messages == [] && events == []
    {
      users, rooms, messages, events := [], [], [], [];
    }

    /** `register`: refuses when the stripped username, or the stripped
        non-empty email, is already stored; otherwise adds one user whose
        credential is the hash of the password. */
    method Register(username: string, emailField: Option<string>, password: string, hashPassword: string -> string)
      returns (result: Registration)
      requires Valid()
      modifies this
      ensures Valid()
      ensures result == CheckRegistration(old(users), username, emailField)
      ensures users == RegisterUser(old(users), username, emailField, hashPassword(password))
      ensures rooms == old(rooms) && messages == old(messages) && events == old(events)
    {
      var name := Strip(username);
      var email := EmailValue(emailField);
      var existing := ExistingUser(users, name, email);
      if existing.Some? {
        return Conflict;
      }
      users := users + [NewUser(name, email, hashPassword(password))];
      result := Registered(|users| - 1);
    }

    /** `create_room`: refuses an anonymous caller and a name already stored
        exactly as submitted; otherwise adds one room under the stripped name. */
    method CreateRoom(session: Option<nat>, name: string, private: bool) returns (result: Creation)
      requires Valid()
      modifies this
      ensures Valid()
      ensures result == CheckCreateRoom(old(users), old(rooms), session, name)
      ensures rooms == Rooms.CreateRoom(old(users), old(rooms), session, name, private)
      ensures users == old(users) && messages == old(messages) && events == old(events)
    {
      if !IsAuthenticated(users, session) {
        return LoginRequired;
      }
      if FirstIndex(rooms, (r: Room) => r.name == name).Some? {
        return AlreadyExists;
      }
      rooms := rooms + [Room(Strip(name), private)];
      result := Created(|rooms| - 1);
    }

    /** `handle_message` at clock value `now`, with `censor` standing for the
        profanity library's censoring. An ignored send changes nothing and
        emits nothing; a rejected one emits its error and stores nothing; an
        accepted one stores exactly one message with the censored text and
        emits one `new_message` event, carrying that text and the new id, to
        the requested room only. */
    method HandleMessage(session: Option<nat>, text: Option<string>, roomName: Option<string>,
                         media: Option<string>, now: int, censor: string -> string)
      requires Valid()
      modifies this
      ensures Valid()
      ensures users == old(users) && rooms == old(rooms)
      ensures var d := Decide(old(users), old(rooms), session, text, roomName, media, now);
        d.Ignored? ==> messages == old(messages) && events == old(events)
      ensures var d := Decide(old(users), old(rooms), session, text, roomName, media, now);
        d.Rejected? ==> messages == old(messages) && events == old(events) + [ErrorEvent(d.msg)]
      ensures var d := Decide(old(users), old(rooms), session, text, roomName, media, now);
        d.Accepted? ==>
          var u, stored := old(users)[session.value], censor(SentText(text));
          messages == old(messages) + [Message(d.roomId, session.value, stored, media, now)] &&
          events == old(events) + [NewMessage(roomName.value, Payload(|old(messages)|, u.username, u.avatar, stored, media, now))]
    {
      ghost var d := Decide(users, rooms, session, text, roomName, media, now);
      var body := SentText(text);
      if body == "" && !HasMedia(media) {
        assert d == Ignored;
        return;
      }
      if !IsAuthenticated(users, session) {
        assert d == Rejected(MsgAuthRequired);
        events := events + [ErrorEvent(MsgAuthRequired)];
        return;
      }
      var sender := users[session.value];
      if sender.banned {
        assert d == Rejected(MsgBanned);
        events := events + [ErrorEvent(MsgBanned)];
        return;
      }
      if IsMuted(sender, now) {
        assert d == Rejected(MsgMuted);
        events := events + [ErrorEvent(MsgMuted)];
        return;
      }
      body := censor(body);
      var room := FindRoom(rooms, roomName);
      if room.None? {
        assert d == Rejected(MsgRoomNotFound);
        events := events + [ErrorEvent(MsgRoomNotFound)];
        return;
      }
      assert d == Accepted(room.value);
      var id := |messages|;
      messages := messages + [Message(room.value, session.value, body, media, now)];
      events := events + [NewMessage(roomName.value, Payload(id, sender.username, sender.avatar, body, media, now))];
    }

    /** The checks shared by the admin routes, in the routes' order. */
    method CheckAdmin(session: Option<nat>, userId: nat) returns (status: Status)
      ensures status == Gate(users, session, userId)
    {
      if !IsAuthenticated(users, session) {
        return Unauthorized;
      }
      if !users[session.value].is_admin {
        return Forbidden;
      }
      if userId >= |users| {
        return NotFound;
      }
      status := Done;
    }

    /** `admin_ban`: an admin sets the target's `banned` flag. */
    method AdminBan(session: Option<nat>, userId: nat) returns (status: Status)
      requires Valid()
      modifies this
      ensures Valid()
      ensures status == Gate(old(users), session, userId)
      ensures users == Moderate(old(users), session, userId, Ban)
      ensures rooms == old(rooms) && messages == old(messages) && events == old(events)
    {
      status := CheckAdmin(session, userId);
      if status == Done {
        users := users[userId := users[userId].(banned := true)];
      }
    }

    /** `admin_unban`: an admin clears the target's `banned` flag. */
    method AdminUnban(session: Option<nat>, userId: nat) returns (status: Status)
      requires Valid()
      modifies this
      ensures Valid()
      ensures status == Gate(old(users), session, userId)
      ensures users == Moderate(old(users), session, userId, Unban)
      ensures rooms == old(rooms) && messages == old(messages) && events == old(events)
    {
      status := CheckAdmin(session, userId);
      if status == Done {
        users := users[userId := users[userId].(banned := false)];
      }
    }

    /** `admin_mute` at clock value `now`: an admin sets the target's
        `muted_until` to 30 minutes later. */
    method AdminMute(session: Option<nat>, userId: nat, now: int) returns (status: Status)
      requires Valid()
      modifies this
      ensures Valid()
      ensures status == Gate(old(users), session, userId)
      ensures users == Moderate(old(users), session, userId, Mute(now))
      ensures rooms == old(rooms) && messages == old(messages) && events == old(events)
    {
      status := CheckAdmin(session, userId);
      if status == Done {
        users := users[userId := users[userId].(muted_until := Some(now + MuteSeconds))];
      }
    }
  }

  /** A run through the object's contracts alone: an admin mutes a user, whose
      post ten minutes later is refused as muted and whose post thirty-one
      minutes later is stored and broadcast to the room. */
  method MuteScenario(admin: User, member: User, text: string, censor: string -> string)
    requires admin.is_admin && !member.banned && Strip(text) != ""
  {
    var s := new ChatServer();
    s.users := [admin, member];
    s.rooms := [Room("lobby", false)];
    var t0 := 1000;
    var status := s.AdminMute(Some(0), 1, t0);
    assert status == Done;
    s.HandleMessage(Some(1), Some(text), Some("lobby"), None, t0 + 10 * 60, censor);
    assert s.messages == [];
    assert s.events == [ErrorEvent(MsgMuted)];
    s.HandleMessage(Some(1), Some(text), Some("lobby"), None, t0 + 31 * 60, censor);
    assert |s.messages| == 1 && s.messages[0].user_id == 1 && s.messages[0].room_id == 0;
    assert s.events[1].NewMessage? && s.events[1].room == "lobby";
  }
}
