/** auth/dependancies.py: looking users up and checking credentials. Password
    verification and JWT decoding are oracles passed in as functions. */
module Auth {
  import opened Http
  import opened Tables
  import opened Schema

  function ByUsername(name: string): User -> bool {
    (u: User) => u.username == name
  }

  function ByEmail(email: string): User -> bool {
    (u: User) => u.email == email
  }

  predicate HasUsername(users: Table<User>, name: string) {
    exists id :: id in users.rows && users.rows[id].username == name
  }

  predicate HasEmail(users: Table<User>, email: string) {
    exists id :: id in users.rows && users.rows[id].email == email
  }

  /** check_if_username_is_email: an "@" anywhere in the string; a missing
      value (the exception path) is not an email. */
  function CheckIfUsernameIsEmail(username: Option<string>): (r: bool)
    ensures r <==> username.Some? && exists i :: 0 <= i < |username.value| && username.value[i] == '@'
  {
    match username
    case None => false
    case Some(s) => '@' in s
  }

  /** get_user: the first user with the given username when one is given,
      whatever the email; otherwise the first with the given email;
      otherwise nobody. Empty strings count as not given. */
  function GetUser(users: Table<User>, username: Option<string>, email: Option<string>): (r: Option<nat>)
    requires Tables.Valid(users)
    ensures r.Some? ==> r.value in users.rows
    ensures r.Some? && Truthy(username) ==> users.rows[r.value].username == username.value
    ensures r.Some? && !Truthy(username) ==> Truthy(email) && users.rows[r.value].email == email.value
    ensures Truthy(username) ==> (r.None? <==> !HasUsername(users, username.value))
    ensures !Truthy(username) && Truthy(email) ==> (r.None? <==> !HasEmail(users, email.value))
    ensures !Truthy(username) && !Truthy(email) ==> r.None?
    ensures r.Some? ==> forall id :: id in users.rows && id < r.value ==>
      if Truthy(username) then users.rows[id].username != username.value
      else users.rows[id].email != email.value
  {
    if Truthy(username) then First(users, ByUsername(username.value))
    else if Truthy(email) then First(users, ByEmail(email.value))
    else None
  }

  /** authenticate_user: look the user up (username first, then email), then
      check the password against the stored hash. The table is only read. */
  function AuthenticateUser(
    users: Table<User>, verify: (string, string) -> bool,
    password: string, username: Option<string>, email: Option<string>): (r: Option<nat>)
    requires Tables.Valid(users)
    ensures r.Some? ==> r == GetUser(users, username, email)
    ensures r.Some? ==> verify(password, users.rows[r.value].hashedPassword)
    ensures r.None? <==>
      var found := GetUser(users, username, email);
      found.None? || !verify(password, users.rows[found.value].hashedPassword)
  {
    var user :=
      if Truthy(username) then GetUser(users, username, None)
      else if Truthy(email) then GetUser(users, None, email)
      else None;
    if user.None? then None
    else if !verify(password, users.rows[user.value].hashedPassword) then None
    else user
  }

  /** authenticate_user gives the username precedence: with a username
      given, the email plays no part. */
  lemma UsernameTakesPrecedence(
    users: Table<User>, verify: (string, string) -> bool,
    password: string, username: string, email1: Option<string>, email2: Option<string>)
    requires Tables.Valid(users) && username != ""
    ensures AuthenticateUser(users, verify, password, Some(username), email1)
         == AuthenticateUser(users, verify, password, Some(username), email2)
  {
  }

  /** What jwt.decode yields for a token: an error, or the claims with the
      value of "sub" if there is one. */
  datatype Decoded = Undecodable | Claims(sub: Option<string>)

  /** The 401 of get_current_user, with its `WWW-Authenticate: Bearer`
      challenge (section 3 of RFC 6750). */
  const CREDENTIALS_ERROR := Error(401, "Could not validate credentials", true)

  /** get_current_user once the token is decoded: the subject names the user
      by email when it contains "@", by username otherwise. */
  function GetCurrentUser(users: Table<User>, token: string, decode: string -> Decoded): (r: Result<nat>)
    requires Tables.Valid(users)
    ensures r.Fail? ==> r.error == CREDENTIALS_ERROR
    ensures r.Ok? ==> decode(token).Claims? && decode(token).sub.Some? && r.value in users.rows
    ensures r.Ok? ==>
      var sub := decode(token).sub.value;
      if '@' in sub then users.rows[r.value].email == sub else users.rows[r.value].username == sub
    ensures r.Fail? <==>
      || decode(token).Undecodable?
      || decode(token).sub.None?
      || var sub := decode(token).sub.value;
         sub == "" || (if '@' in sub then !HasEmail(users, sub) else !HasUsername(users, sub))
  {
    match decode(token)
    case Undecodable => Fail(CREDENTIALS_ERROR)
    case Claims(None) => Fail(CREDENTIALS_ERROR)
    case Claims(Some(sub)) =>
      var user :=
        if CheckIfUsernameIsEmail(Some(sub)) then GetUser(users, None, Some(sub))
        else GetUser(users, Some(sub), None);
      if user.None? then Fail(CREDENTIALS_ERROR) else Ok(user.value)
  }
}
