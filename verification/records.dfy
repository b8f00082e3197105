/** The rows app.py reads and writes, the events it emits, and the
    "first row that matches" lookup that stands for `query.filter_by(...).first()`.
    A row's id is its position in its table: rows are only ever appended, so
    ids are assigned in order (the database counts from 1, this model from 0). */
module Records {

  datatype Option<T> = None | Some(value: T)

  /** A user row, with the fields app.py uses. `credential` is the stored
      password hash; `muted_until` is a clock value, absent when never muted. */
  datatype User = User(
    username: string,
    email: Option<string>,
    credential: string,
    avatar: Option<string>,
    is_admin: bool,
    banned: bool,
    muted_until: Option<int>)

  /** A room row; its id is its position in the room table. */
  datatype Room = Room(name: string, private: bool)

  /** A message row: the room and author ids, the stored (censored) text, the
      media reference as sent, and the creation time. */
  datatype Message = Message(room_id: nat, user_id: nat, text: string, media: Option<string>, created_at: int)

  /** The body of a `new_message` event. */
  datatype Payload = Payload(id: nat, user: string, avatar: Option<string>, text: string, media: Option<string>, created_at: int)

  /** What the socket layer is asked to emit: an `error` event to the
      connection that sent the request, or a `new_message` event to every
      member of the named room. */
  datatype Event =
    | ErrorEvent(msg: string)
    | NewMessage(room: string, payload: Payload)

  /** flask-login's `current_user.is_authenticated`: the session names a
      stored user (otherwise `load_user` yields nothing and the user is anonymous). */
  predicate IsAuthenticated(users: seq<User>, session: Option<nat>) {
    session.Some? && session.value < |users|
  }

  /** `filter(...).first()`: the lowest id whose row satisfies `p`, or nothing. */
  function FirstIndex<T>(s: seq<T>, p: T -> bool): (r: Option<nat>)
    ensures r.Some? ==> r.value < |s| && p(s[r.value])
    ensures r.Some? ==> forall j :: 0 <= j < r.value ==> !p(s[j])
    ensures r.None? <==> forall j :: 0 <= j < |s| ==> !p(s[j])
  {
    if s == [] then None
    else if p(s[0]) then Some(0)
    else match FirstIndex(s[1..], p)
      case None => None
      case Some(k) => Some(k + 1)
  }
}
