/** Registration and login (app.py `register` and `login`), after the form has
    validated. Password hashing is outside the model: registration stores the
    credential it is given, and login asks a caller-supplied check. */
module Accounts {
  import opened Text
  import opened Records

  /** The outcome of `register`: redirect with the "already registered"
      notice, or a new user row under the given id. */
  datatype Registration = Conflict | Registered(id: nat)

  /** The email value `register` works with: the stripped field when the
      form has an email field, nothing otherwise. */
  function EmailValue(emailField: Option<string>): Option<string> {
    match emailField
    case None => None
    case Some(e) => Some(Strip(e))
  }

  /** The existence query of `register`: by username or email when the email
      value is non-empty, by username alone otherwise. */
  function ExistingUser(users: seq<User>, username: string, email: Option<string>): Option<nat> {
    if email.Some? && email.value != "" then
      FirstIndex(users, (u: User) => u.username == username || u.email == email)
    else
      FirstIndex(users, (u: User) => u.username == username)
  }

  /** A freshly registered user: no avatar, not admin, not banned, never muted. */
  function NewUser(username: string, email: Option<string>, credential: string): User {
    User(username, email, credential, None, false, false, None)
  }

  /** Whether `register` refuses or creates, and under which id. */
  function CheckRegistration(users: seq<User>, username: string, emailField: Option<string>): Registration {
    if ExistingUser(users, Strip(username), EmailValue(emailField)).Some? then Conflict
    else Registered(|users|)
  }

  /** The user table after `register`. */
  function RegisterUser(users: seq<User>, username: string, emailField: Option<string>, credential: string): seq<User> {
    if CheckRegistration(users, username, emailField).Conflict? then users
    else users + [NewUser(Strip(username), EmailValue(emailField), credential)]
  }

  /** Registration conflicts exactly when some stored user has the stripped
      username, or has the stripped email when that email is non-empty; a
      conflict leaves the table alone, otherwise exactly one row is appended. */
  lemma RegistrationConflictIff(users: seq<User>, username: string, emailField: Option<string>, credential: string)
    ensures var name, email := Strip(username), EmailValue(emailField);
      CheckRegistration(users, username, emailField).Conflict? <==>
        exists i :: 0 <= i < |users| &&
          (users[i].username == name || (email.Some? && email.value != "" && users[i].email == email))
    ensures CheckRegistration(users, username, emailField).Conflict? ==>
      RegisterUser(users, username, emailField, credential) == users
    ensures CheckRegistration(users, username, emailField).Registered? ==>
      var after := RegisterUser(users, username, emailField, credential);
      CheckRegistration(users, username, emailField).id == |users| &&
      |after| == |users| + 1 && after[..|users|] == users &&
      after[|users|].username == Strip(username) && after[|users|].email == EmailValue(emailField) &&
      !after[|users|].is_admin && !after[|users|].banned && after[|users|].muted_until.None?
  {
  }

  /** No two users share a username, and no two share a non-empty email. */
  ghost predicate UniqueIdentities(users: seq<User>) {
    forall i, j :: 0 <= i < j < |users| ==>
      users[i].username != users[j].username &&
      (users[i].email.Some? && users[i].email.value != "" ==> users[i].email != users[j].email)
  }

  /** Registration keeps usernames and non-empty emails unique: it checks and
      stores the same stripped values. */
  lemma RegisterKeepsIdentitiesUnique(users: seq<User>, username: string, emailField: Option<string>, credential: string)
    requires UniqueIdentities(users)
    ensures UniqueIdentities(RegisterUser(users, username, emailField, credential))
  {
  }

  /** The outcome of `login`. */
  datatype LoginResult = LoggedIn(id: nat) | AccountBanned | InvalidCredentials

  /** The lookup of `login`: by email first when the input contains "@",
      then by username when that found nobody. */
  function LookupAccount(users: seq<User>, key: string): (r: Option<nat>)
    ensures r.Some? ==> r.value < |users|
  {
    var byEmail := if '@' in key then FirstIndex(users, (u: User) => u.email == Some(key)) else None;
    if byEmail.Some? then byEmail else FirstIndex(users, (u: User) => u.username == key)
  }

  /** `login` on the stripped input; `checkPassword(hash, password)` stands for
      `check_password`. */
  function Login(users: seq<User>, input: string, password: string, checkPassword: (string, string) -> bool): LoginResult {
    match LookupAccount(users, Strip(input))
    case None => InvalidCredentials
    case Some(id) =>
      if !checkPassword(users[id].credential, password) then InvalidCredentials
      else if users[id].banned then AccountBanned
      else LoggedIn(id)
  }

  /** The lookup order: an input containing "@" that is some user's email
      finds the first such user, even when another user has it as username;
      otherwise the first user with that username is found, or nobody. */
  lemma LookupAccountSpec(users: seq<User>, key: string)
    ensures var r := LookupAccount(users, key);
      ('@' in key && exists i :: 0 <= i < |users| && users[i].email == Some(key)) ==>
        r.Some? && users[r.value].email == Some(key) &&
        forall j :: 0 <= j < r.value ==> users[j].email != Some(key)
    ensures var r := LookupAccount(users, key);
      !('@' in key && exists i :: 0 <= i < |users| && users[i].email == Some(key)) ==>
        (r.None? <==> forall j :: 0 <= j < |users| ==> users[j].username != key) &&
        (r.Some? ==> users[r.value].username == key && forall j :: 0 <= j < r.value ==> users[j].username != key)
  {
  }

  /** Login succeeds only for a user found by the lookup, whose password check
      passes and who is not banned; a banned user with the right password is
      told so, and every other failure is the same "invalid" answer. */
  lemma LoginOutcomes(users: seq<User>, input: string, password: string, checkPassword: (string, string) -> bool)
    ensures var key, result := Strip(input), Login(users, input, password, checkPassword);
      result.LoggedIn? <==>
        (LookupAccount(users, key).Some? &&
         checkPassword(users[LookupAccount(users, key).value].credential, password) &&
         !users[LookupAccount(users, key).value].banned)
    ensures var key, result := Strip(input), Login(users, input, password, checkPassword);
      result.LoggedIn? ==> LookupAccount(users, key) == Some(result.id)
    ensures var key, result := Strip(input), Login(users, input, password, checkPassword);
      result.LoggedIn? ==>
        users[result.id].username == key || ('@' in key && users[result.id].email == Some(key))
    ensures var key, result := Strip(input), Login(users, input, password, checkPassword);
      result.AccountBanned? <==>
        (LookupAccount(users, key).Some? &&
         checkPassword(users[LookupAccount(users, key).value].credential, password) &&
         users[LookupAccount(users, key).value].banned)
  {
  }

  /** A banned user never logs in, whatever the input and password. */
  lemma BannedNeverLogsIn(users: seq<User>, input: string, password: string, checkPassword: (string, string) -> bool, id: nat)
    requires id < |users| && users[id].banned
    ensures Login(users, input, password, checkPassword) != LoggedIn(id)
  {
  }
}
