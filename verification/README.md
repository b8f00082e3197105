# rain-chat: moderation-gated chat core in Dafny

This project models the decision logic of a small Flask / Socket.IO chat
application. It covers:

- how a `send_message` event is accepted or refused;
- the admin actions that ban, unban and mute users;
- user registration and login;
- room creation;
- the word-list profanity predicate of `utils.py`.

The database is replaced by in-memory tables. `ChatServer` in `server.dfy`
holds the user, room and message tables as sequences, plus a log of the
events the socket layer is asked to emit. A row's id is its position in its
table. The handlers that write rows are methods on that class. Each method
follows the handler's own order of checks and is proved equal to a decision
function, and the lemmas are stated about those functions.

Files:
- `text.dfy`: Python's `strip`, ASCII `lower`, and substring `in`.
- `profanity.dfy`: `contains_profanity`.
- `records.dfy`: rows, events, and the "first matching row" lookup.
- `accounts.dfy`: `register` and `login`.
- `rooms.dfy`: `create_room`.
- `messaging.dfy`: the guard chain of `handle_message`.
- `moderation.dfy`: the admin routes, and how they feed the guard chain.
- `server.dfy`: the stateful object and its methods.

Behaviour of the code worth knowing:
- `handle_message` checks for an empty send before it checks authentication,
  so an anonymous empty send gets no error at all.
- `create_room` checks the name as submitted but stores the stripped name.
  So the code alone does not keep room names unique (see
  `Rooms.UniqueNamesKeptIff` and `Rooms.PaddedNameDuplicates`).
- Bans and mutes are two fields of the user row and apply in every room.
  The room-scoped ban and mute tables are never used by the handlers.
- Profane text is censored in place, never refused outright.

## Model

| member | source | states |
|---|---|---|
| Text.TrimStartSpec | app.py:221 | the leading-whitespace step of `strip` removes only a whitespace prefix, and what remains starts with a non-space |
| Text.TrimEndSpec | app.py:221 | the trailing-whitespace step of `strip` removes only a whitespace suffix, and what remains ends with a non-space |
| Text.StripSpec | app.py:221 | `str.strip()` returns a piece of its input with only whitespace around it, starting and ending with a non-space when non-empty; so it is empty exactly when the input is all whitespace |
| Text.OccursIff | utils.py:7 | the left-to-right search for `w in t` succeeds exactly when `w` is a substring of `t` |
| Profanity.ContainsProfanitySpec | utils.py:4-9 | `contains_profanity(text)` is true iff some listed word is a substring of the lower-cased text |
| Profanity.CaseInsensitive | utils.py:5 | the predicate gives the same answer for a text and its lower-cased form |
| Profanity.EmbeddedWordFlagged | utils.py:7 | a listed word with any text before and after it is flagged, because matching is by substring and not by whole word |
| Profanity.FlaggedExamples | utils.py:2-8 | "xbadword1y" is flagged, and so is the upper-case spelling "BadWord2" |
| Profanity.ShortTextNotFlagged | utils.py:9 | a text shorter than every listed word, the empty text included, is not flagged |
| Profanity.FlaggedIsMonotone | utils.py:7 | if `s` is flagged, every text that contains `s` is flagged |
| Records.FirstIndex | app.py:236 | `filter(...).first()` returns the lowest id whose row matches, and nothing exactly when no row matches |
| Accounts.RegistrationConflictIff | app.py:70-96 | registration conflicts iff some stored user has the stripped username, or has the stripped email when that email is non-empty; a conflict adds nothing; otherwise exactly one non-admin, unbanned, unmuted user is appended under the next id |
| Accounts.RegisterKeepsIdentitiesUnique | app.py:66-87 | registration keeps usernames unique and non-empty emails unique, because it checks and stores the same stripped values |
| Accounts.LookupAccountSpec | app.py:108-114 | input containing "@" that is some user's email finds the first such user, even if another user has it as username; otherwise the first user with that username is found, or nobody |
| Accounts.LoginOutcomes | app.py:116-125 | login succeeds iff the lookup finds a user whose password check passes and who is not banned; the user found matches the input by username or, when the input has "@", by email; "banned" is reported iff the password passes for a banned user |
| Accounts.BannedNeverLogsIn | app.py:117-119 | a banned user is never logged in, whatever the input and password |
| Rooms.CreateRoomOutcomes | app.py:179-189 | an anonymous caller is sent to login; a room with the submitted name as is blocks creation and nothing is added; otherwise exactly one room is appended under the stripped name with the submitted visibility |
| Rooms.UniqueNamesKeptIff | app.py:184-187 | starting from unique names, creation keeps them unique iff the raw name is already taken or the stripped name is still free |
| Rooms.PaddedNameDuplicates | app.py:184-187 | with "lobby" stored, creating " lobby" passes the check and leaves two rooms named "lobby" |
| Messaging.FindRoom | app.py:236-237 | a room found has the requested name; a missing room name finds no room |
| Messaging.Decide | app.py:220-239 | every refusal is one of the four error messages; an accepted send has a signed-in sender and targets a stored room with the requested name |
| Messaging.EmptySendIgnored | app.py:221-224 | a send whose text is missing or all whitespace, and which has no media, is ignored, even from an anonymous sender |
| Messaging.AnonymousRejected | app.py:225-227 | a non-empty send from an anonymous sender is refused with "Authentication required.", whatever the room and the time |
| Messaging.BannedRejected | app.py:228-230 | a non-empty send from a banned user is refused with "You are banned.", whatever the mute, the room and the time |
| Messaging.MuteGuardExact | app.py:231-233 | for a signed-in, unbanned sender, the send is refused as muted iff `muted_until` is present and strictly later than `now` |
| Messaging.RoomMissingRejected | app.py:236-239 | once the first four guards pass, the send is refused with "Room not found." iff no room has the requested name |
| Messaging.AcceptedIff | app.py:221-241 | a send is accepted into room `rid` iff it has text or media, the sender is signed in, not banned and not muted at `now`, and `rid` is the first room with the requested name |
| Moderation.NonAdminChangesNothing | app.py:258-261 | a caller who is not a signed-in admin is refused (403 when signed in) and no user record changes |
| Moderation.AdminChangesOneField | app.py:257-290 | an admin's ban, unban or mute changes only the target user: `banned` becomes true or false, or `muted_until` becomes `now` + 30 minutes; every other field and user stays the same |
| Moderation.GateStable | app.py:258-262 | no admin action changes who is signed in or who is an admin, so the same caller passes the same checks again |
| Moderation.BanUnbanIdempotent | app.py:263-275 | repeating a ban, or repeating an unban, changes nothing further |
| Moderation.LastBanOrUnbanWins | app.py:257-278 | a ban followed by an unban (or the other way round) leaves the table as the second action alone would |
| Moderation.MutedSenderDenied | app.py:287 | after a mute at `now`, every non-empty send by the target at a time before `now` + 30 minutes is refused: as muted, or as banned if the target was already banned |
| Moderation.MuteExpires | app.py:231 | from `now` + 30 minutes on, a non-empty send by an unbanned muted user to an existing room is accepted |
| Moderation.BannedSenderDenied | app.py:263 | after a ban, every non-empty send by the target is refused as banned, at any time |
| Server.ChatServer.Author | models.py:35 | a stored message's `user_id` resolves to a stored user; every method keeps this foreign key valid |
| Server.ChatServer.RoomOf | models.py:36 | a stored message's `room_id` resolves to a stored room; every method keeps this foreign key valid |
| Server.ChatServer.Register | app.py:61-99 | the outcome and the new user table are those of the registration decision; rooms, messages and events are unchanged; every message still refers to a stored room and user |
| Server.ChatServer.CreateRoom | app.py:179-193 | the outcome and the new room table are those of the room-creation decision; users, messages and events are unchanged |
| Server.ChatServer.HandleMessage | app.py:219-253 | an ignored send changes nothing and emits nothing; a refused one emits only its error; an accepted one appends exactly one message (sender's id, room's id, `censor(text)`, media, `now`) and emits one `new_message` event to that room only, with the same text and the new message's id |
| Server.ChatServer.CheckAdmin | app.py:258-262 | the admin route's checks in order: not signed in, then not admin (403), then unknown user (404) |
| Server.ChatServer.AdminBan | app.py:257-266 | the status and the new user table are those of a ban; nothing else changes |
| Server.ChatServer.AdminUnban | app.py:269-278 | the status and the new user table are those of an unban; nothing else changes |
| Server.ChatServer.AdminMute | app.py:281-290 | the status and the new user table are those of a mute until `now` + 30 minutes; nothing else changes |

## Left out

- Flask routing, templates, `flash` messages and redirects. They appear only as result values (`Registration`, `LoginResult`, `Creation`, `Status`).
- Form validation (`validate_on_submit`). forms.py defines classes under other names than those app.py imports. Each handler is modelled from the point where its form has validated. The branches for invalid forms (showing the form again, "Room creation failed") are not modelled.
- The fields `register` sets only when the form has them (name, phone, gender). The core never reads them.
- Password hashing. `set_password` and `check_password` wrap a library. Registration stores `hashPassword(password)`, and login asks a `checkPassword(hash, password)` that the caller passes in.
- `better_profanity`'s `censor`. It is a library call and is passed in as a function. app.py never calls `contains_profanity`, which is modelled on its own.
- The room page (`room`, app.py:167-175): the private-room redirect and the message listing with its order and 200-row cap. The landing, chat, logout and profile pages. Avatar upload and `uploaded_file` (file-system I/O). A user's avatar is carried into message payloads but never changed here.
- The `join` and `leave` socket handlers and room membership. These belong to the socket library. The event log records what is emitted and where it is addressed, not who receives it.
- The database. Tables are sequences, and ids count from 0 instead of 1. `.first()` without an ordering is taken to return the lowest id. Commit failures, unique constraints in the schema, and two requests racing to create the same room are not modelled.
- Time. `datetime.utcnow()` is an integer `now` in seconds, passed in. `created_at` is stored as that integer, not as an ISO string.
- Unicode. `strip` removes ASCII whitespace only, and `lower` maps ASCII letters only.
- Socket data of unexpected types (a non-string `text`, say), which would raise in the source. Text, room and media are each modelled as a missing or a string value.
- Granting admin rights. No handler in the core sets `is_admin`. The client method `Server.MuteScenario` therefore seeds the tables directly with an admin user.
