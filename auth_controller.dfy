/** controllers/auth_controller.py: sign-up, the two login endpoints and /me.
    Password hashing and token encoding are oracles passed in as functions. */
module AuthController {
  import opened Http
  import opened Tables
  import opened Schema
  import opened Auth

  datatype UserBase = UserBase(username: string, password: string)

  datatype UserCreate = UserCreate(
    username: string,
    password: string,
    email: string,
    firstName: string,
    lastName: string)

  /** The OAuth2 password form of /flogin. */
  datatype LoginForm = LoginForm(username: string, password: string)

  /** The user as the endpoints return it: never the password hash. */
  datatype UserResponse = UserResponse(
    id: nat,
    username: string,
    email: string,
    firstName: string,
    lastName: string)

  datatype Token = Token(accessToken: string, tokenType: string)

  const INCORRECT_CREDENTIALS := Error(401, "Incorrect username or password", true)
  const USERNAME_TAKEN := Error(400, "Username already registered", false)

  function Respond(users: Table<User>, id: nat): UserResponse
    requires id in users.rows
  {
    var u := users.rows[id];
    UserResponse(id, u.username, u.email, u.firstName, u.lastName)
  }

  /** create_access_token(data={"sub": subject}): the oracle encodes the claims. */
  function IssueToken(encode: string -> string, subject: string): Token {
    Token(encode(subject), "bearer")
  }

  /** The user a JSON login names: by email when the login contains "@",
      by username otherwise. */
  predicate LoginNames(u: User, login: string) {
    if '@' in login then u.email == login else u.username == login
  }

  /** The user with key id is the first (in key order) that the login names. */
  predicate FirstNamed(users: Table<User>, login: string, id: nat) {
    && id in users.rows && LoginNames(users.rows[id], login)
    && forall k :: k in users.rows && k < id ==> !LoginNames(users.rows[k], login)
  }

  /** /jlogin: authenticate by email or username depending on "@"; the token's
      subject is the login exactly as submitted. */
  function LoginWithJson(
    users: Table<User>, user: UserBase,
    verify: (string, string) -> bool, encode: string -> string): (r: Result<Token>)
    requires Tables.Valid(users)
    ensures r.Fail? ==> r.error == INCORRECT_CREDENTIALS
    ensures r.Ok? ==> r.value == IssueToken(encode, user.username)
    ensures r.Ok? ==> exists id :: id in users.rows && LoginNames(users.rows[id], user.username)
                                   && verify(user.password, users.rows[id].hashedPassword)
    ensures (forall id :: id in users.rows && LoginNames(users.rows[id], user.username)
                          ==> !verify(user.password, users.rows[id].hashedPassword)) ==> r.Fail?
    ensures r.Ok? <==> user.username != "" && exists id :: FirstNamed(users, user.username, id)
                                                          && verify(user.password, users.rows[id].hashedPassword)
  {
    var res :=
      if CheckIfUsernameIsEmail(Some(user.username)) then AuthenticateUser(users, verify, user.password, None, Some(user.username))
      else AuthenticateUser(users, verify, user.password, Some(user.username), None);
    if res.None? then Fail(INCORRECT_CREDENTIALS)
    else Ok(IssueToken(encode, user.username))
  }

  /** /flogin as written: the form's username is passed where authenticate_user
      expects the password, and the form's password as the username. */
  function LoginWithForm(
    users: Table<User>, form: LoginForm,
    verify: (string, string) -> bool, encode: string -> string): (r: Result<Token>)
    requires Tables.Valid(users)
    ensures r.Fail? ==> r.error == INCORRECT_CREDENTIALS
    ensures r.Ok? ==> r.value == IssueToken(encode, form.password)
    ensures r.Ok? ==> exists id :: id in users.rows && users.rows[id].username == form.password
                                   && verify(form.username, users.rows[id].hashedPassword)
  {
    var user := AuthenticateUser(users, verify, form.username, Some(form.password), None);
    if user.None? then Fail(INCORRECT_CREDENTIALS)
    else Ok(IssueToken(encode, users.rows[user.value].username))
  }

  /** /flogin as evidently intended: the form's username names the user and
      the form's password is checked against that user's hash. */
  function LoginWithFormIntended(
    users: Table<User>, form: LoginForm,
    verify: (string, string) -> bool, encode: string -> string): (r: Result<Token>)
    requires Tables.Valid(users)
    ensures r.Fail? ==> r.error == INCORRECT_CREDENTIALS
    ensures r.Ok? ==> r.value == IssueToken(encode, form.username)
    ensures r.Ok? <==> form.username != "" && HasUsername(users, form.username)
                       && var id := First(users, ByUsername(form.username)).value;
                          verify(form.password, users.rows[id].hashedPassword)
  {
    var user := AuthenticateUser(users, verify, form.password, Some(form.username), None);
    if user.None? then Fail(INCORRECT_CREDENTIALS)
    else Ok(IssueToken(encode, users.rows[user.value].username))
  }

  /** The form login as written is the intended one with the two fields swapped. */
  lemma FormLoginSwapsFields(
    users: Table<User>, form: LoginForm,
    verify: (string, string) -> bool, encode: string -> string)
    requires Tables.Valid(users)
    ensures LoginWithForm(users, form, verify, encode)
         == LoginWithFormIntended(users, LoginForm(form.password, form.username), verify, encode)
  {
  }

  /** A registered user who submits the right username and password to /flogin
      is refused, where the intended login accepts them. */
  lemma FormLoginRefusesValidCredentials()
    ensures
      var verify := (password: string, hash: string) => hash == "h:" + password;
      var users := Table(map[1 := User("alice", "alice@example.org", "Alice", "A", "h:secret")], 2);
      var form := LoginForm("alice", "secret");
      var encode := (sub: string) => sub;
      && LoginWithFormIntended(users, form, verify, encode).Ok?
      && LoginWithForm(users, form, verify, encode) == Fail(INCORRECT_CREDENTIALS)
  {
    var verify := (password: string, hash: string) => hash == "h:" + password;
    var users := Table(map[1 := User("alice", "alice@example.org", "Alice", "A", "h:secret")], 2);
    assert 1 in users.rows && users.rows[1].username == "alice";
    assert !HasUsername(users, "secret") by {
      forall id | id in users.rows ensures users.rows[id].username != "secret" {
        assert id == 1;
      }
    }
  }

  /** No two users share a non-empty username. */
  ghost predicate UniqueUsernames(users: Table<User>) {
    forall a, b :: a in users.rows && b in users.rows && a != b && users.rows[a].username != ""
      ==> users.rows[a].username != users.rows[b].username
  }

  /** /signup: refuse a username that is already registered (emails are not
      checked); otherwise store the user with the hash of the password. */
  method Signup(db: Session, user: UserCreate, hash: string -> string) returns (r: Result<UserResponse>)
    requires Tables.Valid(db.users)
    modifies db`users
    ensures Tables.Valid(db.users)
    ensures UniqueUsernames(old(db.users)) ==> UniqueUsernames(db.users)
    ensures GetUser(old(db.users), Some(user.username), None).Some? ==>
      r == Fail(USERNAME_TAKEN) && db.users == old(db.users)
    ensures GetUser(old(db.users), Some(user.username), None).None? ==>
      var stored := User(user.username, user.email, user.firstName, user.lastName, hash(user.password));
      && db.users == Insert(old(db.users), stored).0
      && r == Ok(UserResponse(old(db.users).nextId, user.username, user.email, user.firstName, user.lastName))
  {
    var existing := GetUser(db.users, Some(user.username), None);
    if existing.Some? {
      return Fail(USERNAME_TAKEN);
    }
    var hashedPassword := hash(user.password);
    var row := User(user.username, user.email, user.firstName, user.lastName, hashedPassword);
    var (users', id) := Insert(db.users, row);
    db.users := users';
    r := Ok(Respond(db.users, id));
  }

  /** /me: the authenticated user, unchanged, without its password hash. */
  function ReadUsersMe(users: Table<User>, token: string, decode: string -> Decoded): (r: Result<UserResponse>)
    requires Tables.Valid(users)
    ensures r.Fail? ==> r.error == CREDENTIALS_ERROR
    ensures r.Ok? <==> GetCurrentUser(users, token, decode).Ok?
    ensures r.Ok? ==> r.value.id in users.rows && r.value == Respond(users, r.value.id)
    ensures r.Ok? ==> r.value == Respond(users, GetCurrentUser(users, token, decode).value)
    ensures r.Ok? ==>
      var sub := decode(token).sub.value;
      if '@' in sub then r.value.email == sub else r.value.username == sub
  {
    match GetCurrentUser(users, token, decode)
    case Fail(e) => Fail(e)
    case Ok(id) => Ok(Respond(users, id))
  }
}
