/** The admin actions of app.py (`admin_ban`, `admin_unban`, `admin_mute`):
    each is refused unless the caller is a signed-in admin and the target
    user exists, and otherwise sets one moderation field of the target. Those
    fields are what the guard chain of `handle_message` reads. */
module Moderation {
  import opened Records
  import opened Messaging

  /** `timedelta(minutes=30)`, with the clock counted in seconds. */
  const MuteSeconds := 30 * 60

  /** Ban, unban, or mute issued at clock value `now`. */
  datatype Action = Ban | Unban | Mute(now: int)

  /** The response of an admin route: done (redirect to the chat page),
      redirect to login, 403, or 404. */
  datatype Status = Done | Unauthorized | Forbidden | NotFound

  /** The checks of an admin route, in order: `login_required`, `is_admin`,
      `get_or_404`. */
  function Gate(users: seq<User>, session: Option<nat>, target: nat): Status {
    if !IsAuthenticated(users, session) then Unauthorized
    else if !users[session.value].is_admin then Forbidden
    else if target >= |users| then NotFound
    else Done
  }

  /** The one field an action assigns. */
  function Apply(u: User, action: Action): User {
    match action
    case Ban => u.(banned := true)
    case Unban => u.(banned := false)
    case Mute(now) => u.(muted_until := Some(now + MuteSeconds))
  }

  /** The user table after an admin route. */
  function Moderate(users: seq<User>, session: Option<nat>, target: nat, action: Action): seq<User> {
    if Gate(users, session, target) == Done then users[target := Apply(users[target], action)]
    else users
  }

  /** A caller who is not a signed-in admin is refused (403 when signed in)
      and no user record changes. */
  lemma NonAdminChangesNothing(users: seq<User>, session: Option<nat>, target: nat, action: Action)
    requires !(IsAuthenticated(users, session) && users[session.value].is_admin)
    ensures Gate(users, session, target) != Done
    ensures IsAuthenticated(users, session) ==> Gate(users, session, target) == Forbidden
    ensures Moderate(users, session, target, action) == users
  {
  }

  /** An admin's action changes only the target user, and of that user only
      the one field the action is about: `banned` for ban and unban,
      `muted_until` (to 30 minutes after `now`) for mute. */
  lemma AdminChangesOneField(users: seq<User>, session: Option<nat>, target: nat, action: Action)
    requires Gate(users, session, target) == Done
    ensures var after := Moderate(users, session, target, action);
      |after| == |users| && target < |users| &&
      (forall j :: 0 <= j < |users| && j != target ==> after[j] == users[j]) &&
      after[target].username == users[target].username &&
      after[target].email == users[target].email &&
      after[target].credential == users[target].credential &&
      after[target].avatar == users[target].avatar &&
      after[target].is_admin == users[target].is_admin &&
      after[target].banned == (if action.Ban? then true else if action.Unban? then false else users[target].banned) &&
      after[target].muted_until == (if action.Mute? then Some(action.now + MuteSeconds) else users[target].muted_until)
  {
  }

  /** Nothing an admin route does changes who is signed in or who is an
      admin, so the same caller passes the same checks again. */
  lemma GateStable(users: seq<User>, session: Option<nat>, target: nat, action: Action, target': nat)
    ensures Gate(Moderate(users, session, target, action), session, target') == Gate(users, session, target')
  {
  }

  /** Ban and unban are idempotent: repeating one changes nothing further. */
  lemma BanUnbanIdempotent(users: seq<User>, session: Option<nat>, target: nat, action: Action)
    requires action.Ban? || action.Unban?
    ensures var once := Moderate(users, session, target, action);
      Moderate(once, session, target, action) == once
  {
  }

  /** Between ban and unban the last one wins: the earlier one leaves no trace. */
  lemma LastBanOrUnbanWins(users: seq<User>, session: Option<nat>, target: nat, first: Action, second: Action)
    requires first.Ban? || first.Unban?
    requires second.Ban? || second.Unban?
    ensures Moderate(Moderate(users, session, target, first), session, target, second) ==
      Moderate(users, session, target, second)
  {
  }

  /** After an admin mutes a user at `now`, every send by that user with text
      or media at a clock value before `now + 30 minutes` is refused: as muted,
      or as banned when the user was already banned. */
  lemma MutedSenderDenied(users: seq<User>, rooms: seq<Room>, admin: Option<nat>, target: nat, now: int,
                          t: int, text: Option<string>, roomName: Option<string>, media: Option<string>)
    requires Gate(users, admin, target) == Done
    requires t < now + MuteSeconds
    requires SentText(text) != "" || HasMedia(media)
    ensures var after := Moderate(users, admin, target, Mute(now));
      Decide(after, rooms, Some(target), text, roomName, media, t) ==
        Rejected(if users[target].banned then MsgBanned else MsgMuted)
  {
  }

  /** The mute lapses by itself: from `now + 30 minutes` on, a send by a muted
      user who is not banned is accepted into the first room with the
      requested name. */
  lemma MuteExpires(users: seq<User>, rooms: seq<Room>, admin: Option<nat>, target: nat, now: int,
                    t: int, text: Option<string>, roomName: Option<string>, media: Option<string>, rid: nat)
    requires Gate(users, admin, target) == Done && !users[target].banned
    requires now + MuteSeconds <= t
    requires SentText(text) != "" || HasMedia(media)
    requires roomName.Some? && rid < |rooms| && rooms[rid].name == roomName.value
    requires forall j :: 0 <= j < rid ==> rooms[j].name != roomName.value
    ensures var after := Moderate(users, admin, target, Mute(now));
      Decide(after, rooms, Some(target), text, roomName, media, t) == Accepted(rid)
  {
  }

  /** After an admin bans a user, every send by that user with text or media
      is refused as banned, at any time, until an unban. */
  lemma BannedSenderDenied(users: seq<User>, rooms: seq<Room>, admin: Option<nat>, target: nat,
                           t: int, text: Option<string>, roomName: Option<string>, media: Option<string>)
    requires Gate(users, admin, target) == Done
    requires SentText(text) != "" || HasMedia(media)
    ensures var after := Moderate(users, admin, target, Ban);
      Decide(after, rooms, Some(target), text, roomName, media, t) == Rejected(MsgBanned)
  {
  }
}
