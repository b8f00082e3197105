/** The guard chain of app.py `handle_message`: an empty send is dropped
    silently; then, in order, an anonymous sender, a banned sender, a muted
    sender and an unknown room are each refused with their own error; a send
    that passes every guard is accepted into the first room with that name. */
module Messaging {
  import opened Text
  import opened Records

  const MsgAuthRequired := "Authentication required."
  const MsgBanned := "You are banned."
  const MsgMuted := "You are muted."
  const MsgRoomNotFound := "Room not found."

  /** What `handle_message` decides: return without emitting, emit an
      `error` event with the given text, or store and broadcast into the room
      with the given id. */
  datatype Decision = Ignored | Rejected(msg: string) | Accepted(roomId: nat)

  /** `(data.get("text") or "").strip()`. */
  function SentText(text: Option<string>): string {
    match text
    case None => Strip("")
    case Some(t) => Strip(t)
  }

  /** The truthiness of `data.get("media")`: present and non-empty. */
  predicate HasMedia(media: Option<string>) {
    media.Some? && media.value != ""
  }

  /** `muted_until and muted_until > now`: a mute still in force. */
  predicate IsMuted(u: User, now: int) {
    u.muted_until.Some? && u.muted_until.value > now
  }

  /** `Room.query.filter_by(name=room_name).first()`; a missing room name matches no room. */
  function FindRoom(rooms: seq<Room>, roomName: Option<string>): (r: Option<nat>)
    ensures r.Some? ==> roomName.Some? && r.value < |rooms| && rooms[r.value].name == roomName.value
  {
    match roomName
    case None => None
    case Some(n) => FirstIndex(rooms, (r: Room) => r.name == n)
  }

  /** The decision of `handle_message` for a send at clock value `now`. */
  function Decide(users: seq<User>, rooms: seq<Room>, session: Option<nat>, text: Option<string>,
                  roomName: Option<string>, media: Option<string>, now: int): (d: Decision)
    ensures d.Rejected? ==> d.msg in {MsgAuthRequired, MsgBanned, MsgMuted, MsgRoomNotFound}
    ensures d.Accepted? ==>
      IsAuthenticated(users, session) && roomName.Some? &&
      d.roomId < |rooms| && rooms[d.roomId].name == roomName.value
  {
    if SentText(text) == "" && !HasMedia(media) then Ignored
    else if !IsAuthenticated(users, session) then Rejected(MsgAuthRequired)
    else if users[session.value].banned then Rejected(MsgBanned)
    else if IsMuted(users[session.value], now) then Rejected(MsgMuted)
    else match FindRoom(rooms, roomName)
      case None => Rejected(MsgRoomNotFound)
      case Some(rid) => Accepted(rid)
  }

  /** A send with no text (missing, empty or all whitespace) and no media is
      ignored, whoever sends it: the emptiness check comes before the
      authentication check, so even an anonymous sender gets no error. */
  lemma EmptySendIgnored(users: seq<User>, rooms: seq<Room>, session: Option<nat>, text: Option<string>,
                         roomName: Option<string>, media: Option<string>, now: int)
    requires text.Some? ==> forall i :: 0 <= i < |text.value| ==> IsSpace(text.value[i])
    requires !HasMedia(media)
    ensures Decide(users, rooms, session, text, roomName, media, now) == Ignored
  {
    StripSpec(if text.Some? then text.value else "");
  }

  /** A non-empty send from an anonymous sender is refused with the
      authentication error, whatever the room and the clock. */
  lemma AnonymousRejected(users: seq<User>, rooms: seq<Room>, session: Option<nat>, text: Option<string>,
                          roomName: Option<string>, media: Option<string>, now: int)
    requires SentText(text) != "" || HasMedia(media)
    requires !IsAuthenticated(users, session)
    ensures Decide(users, rooms, session, text, roomName, media, now) == Rejected(MsgAuthRequired)
  {
  }

  /** A non-empty send from a banned user is refused as banned, whatever the
      content, the mute, the room and the clock. */
  lemma BannedRejected(users: seq<User>, rooms: seq<Room>, session: Option<nat>, text: Option<string>,
                       roomName: Option<string>, media: Option<string>, now: int)
    requires SentText(text) != "" || HasMedia(media)
    requires IsAuthenticated(users, session) && users[session.value].banned
    ensures Decide(users, rooms, session, text, roomName, media, now) == Rejected(MsgBanned)
  {
  }

  /** For a non-empty send by a user who is signed in and not banned, the mute
      guard refuses exactly when a mute is recorded and ends strictly after
      `now`: at `now == muted_until`, or with no mute, the send gets past it. */
  lemma MuteGuardExact(users: seq<User>, rooms: seq<Room>, session: Option<nat>, text: Option<string>,
                       roomName: Option<string>, media: Option<string>, now: int)
    requires SentText(text) != "" || HasMedia(media)
    requires IsAuthenticated(users, session) && !users[session.value].banned
    ensures var u := users[session.value];
      Decide(users, rooms, session, text, roomName, media, now) == Rejected(MsgMuted) <==>
        u.muted_until.Some? && now < u.muted_until.value
  {
  }

  /** A send that passes the first four guards is refused as "room not found"
      exactly when no room has the requested name. */
  lemma RoomMissingRejected(users: seq<User>, rooms: seq<Room>, session: Option<nat>, text: Option<string>,
                            roomName: Option<string>, media: Option<string>, now: int)
    requires SentText(text) != "" || HasMedia(media)
    requires IsAuthenticated(users, session) && !users[session.value].banned && !IsMuted(users[session.value], now)
    ensures Decide(users, rooms, session, text, roomName, media, now) == Rejected(MsgRoomNotFound) <==>
      (roomName.None? || forall i :: 0 <= i < |rooms| ==> rooms[i].name != roomName.value)
  {
  }

  /** A send is accepted into room `rid` exactly when it has text or media,
      its sender is signed in, not banned and not muted at `now`, and `rid` is
      the first room with the requested name. */
  lemma AcceptedIff(users: seq<User>, rooms: seq<Room>, session: Option<nat>, text: Option<string>,
                    roomName: Option<string>, media: Option<string>, now: int, rid: nat)
    ensures Decide(users, rooms, session, text, roomName, media, now) == Accepted(rid) <==>
      (SentText(text) != "" || HasMedia(media)) &&
      IsAuthenticated(users, session) && !users[session.value].banned &&
      (users[session.value].muted_until.None? || users[session.value].muted_until.value <= now) &&
      roomName.Some? && rid < |rooms| && rooms[rid].name == roomName.value &&
      (forall j :: 0 <= j < rid ==> rooms[j].name != roomName.value)
  {
  }
}
