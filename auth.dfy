/** Registration and login as the auth controller decides them. The user
    table is seen only through `lookup` (the first row whose username
    matches the submitted value, as the controller's SELECT returns it) and
    SHA-256 only through `hash`, an arbitrary function. */
module Auth {
  import opened Js

  const RequiredMessage: string := "Username and password are required"
  const UsernameLengthMessage: string := "Username must be between 3 and 30 characters"
  const PasswordLengthMessage: string := "Password must be at least 6 characters long"
  const DuplicateMessage: string := "Username already exists"
  const InvalidCredentials: string := "Invalid username or password"

  const MinUsernameLength: nat := 3
  const MaxUsernameLength: nat := 30
  const MinPasswordLength: nat := 6

  /** A row of the Users table. */
  datatype UserRecord = UserRecord(id: int, username: string, password: string, isAdmin: JsValue)

  type Lookup = JsValue -> Option<UserRecord>

  /** The three validation checks of `register`, all passed. */
  predicate PassesValidation(username: JsValue, password: JsValue)
  {
    && Truthy(username) && Truthy(password)
    && !LengthBelow(username, MinUsernameLength) && !LengthAbove(username, MaxUsernameLength)
    && !LengthBelow(password, MinPasswordLength)
  }

  /** What `register` answers: 400 or 409 with a message, 500 when hashing
      throws, or 201 after inserting the user with the hashed password. */
  datatype RegisterOutcome =
    | RegisterRejected(status: int, message: string)
    | RegisterFailed
    | Registered(username: JsValue, storedPassword: string)
  {
    function Status(): int
    {
      match this
      case RegisterRejected(status, _) => status
      case RegisterFailed => 500
      case Registered(_, _) => 201
    }
  }

  /** `register`: required fields, then the username length, then the
      password length, then uniqueness; the first failing check decides. */
  function Register(username: JsValue, password: JsValue, lookup: Lookup, hash: string -> string): (r: RegisterOutcome)
    ensures !Truthy(username) || !Truthy(password) ==> r == RegisterRejected(400, RequiredMessage)
    ensures Truthy(username) && Truthy(password)
      && (LengthBelow(username, MinUsernameLength) || LengthAbove(username, MaxUsernameLength))
      ==> r == RegisterRejected(400, UsernameLengthMessage)
    ensures Truthy(username) && Truthy(password)
      && !LengthBelow(username, MinUsernameLength) && !LengthAbove(username, MaxUsernameLength)
      && LengthBelow(password, MinPasswordLength)
      ==> r == RegisterRejected(400, PasswordLengthMessage)
    ensures r.Status() == 400 <==> !PassesValidation(username, password)
    ensures r.Status() == 409 <==> PassesValidation(username, password) && lookup(username).Some?
    ensures r.Status() == 409 ==> r == RegisterRejected(409, DuplicateMessage)
    ensures r.Registered? <==>
      PassesValidation(username, password) && lookup(username).None? && password.Str?
    ensures r == RegisterFailed <==>
      PassesValidation(username, password) && lookup(username).None? && !password.Str?
    ensures r.Registered? ==>
      && r.username == username
      && r.storedPassword == hash(password.s)
      && |password.s| >= MinPasswordLength
      && (username.Str? ==> MinUsernameLength <= |username.s| <= MaxUsernameLength)
  {
    if !Truthy(username) || !Truthy(password) then
      RegisterRejected(400, RequiredMessage)
    else if LengthBelow(username, MinUsernameLength) || LengthAbove(username, MaxUsernameLength) then
      RegisterRejected(400, UsernameLengthMessage)
    else if LengthBelow(password, MinPasswordLength) then
      RegisterRejected(400, PasswordLengthMessage)
    else if lookup(username).Some? then
      RegisterRejected(409, DuplicateMessage)
    else if !password.Str? then
      RegisterFailed
    else
      Registered(username, hash(password.s))
  }

  /** A stored password is accepted when it is the plaintext itself or its
      hash (accounts created before hashing keep plaintext passwords). */
  predicate PasswordMatches(stored: string, password: string, hash: string -> string)
  {
    stored == password || stored == hash(password)
  }

  /** `is_admin === 1 || is_admin === true`. */
  predicate IsAdmin(flag: JsValue)
  {
    flag == Num(Finite(1.0)) || flag == Bool(true)
  }

  /** What `login` answers: 400 or 401 with a message, 500 when hashing
      throws, or 200 with the user's id, name and admin flag. */
  datatype LoginOutcome =
    | LoginRejected(status: int, message: string)
    | LoginFailed
    | LoggedIn(id: int, username: string, isAdmin: bool)
  {
    function Status(): int
    {
      match this
      case LoginRejected(status, _) => status
      case LoginFailed => 500
      case LoggedIn(_, _, _) => 200
    }
  }

  /** `login`: required fields, then the user lookup, then the password
      comparison; unknown user and wrong password get the same answer. */
  function Login(username: JsValue, password: JsValue, lookup: Lookup, hash: string -> string): (r: LoginOutcome)
    ensures !Truthy(username) || !Truthy(password) ==> r == LoginRejected(400, RequiredMessage)
    ensures r.Status() == 400 <==> !Truthy(username) || !Truthy(password)
    ensures r == LoginFailed <==>
      Truthy(username) && Truthy(password) && lookup(username).Some? && !password.Str?
    ensures r.Status() == 401 <==>
      && Truthy(username) && Truthy(password)
      && (lookup(username).None?
          || (password.Str? && !PasswordMatches(lookup(username).value.password, password.s, hash)))
    ensures r.Status() == 401 ==> r == LoginRejected(401, InvalidCredentials)
    ensures r.LoggedIn? <==>
      && Truthy(username) && Truthy(password) && lookup(username).Some? && password.Str?
      && PasswordMatches(lookup(username).value.password, password.s, hash)
    ensures r.LoggedIn? ==>
      var user := lookup(username).value;
      r.id == user.id && r.username == user.username
      && r.isAdmin == IsAdmin(user.isAdmin)
  {
    if !Truthy(username) || !Truthy(password) then
      LoginRejected(400, RequiredMessage)
    else
      match lookup(username)
      case None => LoginRejected(401, InvalidCredentials)
      case Some(user) =>
        if !password.Str? then
          LoginFailed
        else if !PasswordMatches(user.password, password.s, hash) then
          LoginRejected(401, InvalidCredentials)
        else
          LoggedIn(user.id, user.username, IsAdmin(user.isAdmin))
  }

  /** An unknown username and a wrong password for a known one cannot be
      told apart from the answer. */
  lemma UnknownUserLikeWrongPassword(
    username: JsValue, password: JsValue, lookup: Lookup,
    username': JsValue, password': string, lookup': Lookup, hash: string -> string)
    requires Truthy(username) && Truthy(password) && lookup(username).None?
    requires Truthy(username') && password' != "" && lookup'(username').Some?
    requires !PasswordMatches(lookup'(username').value.password, password', hash)
    ensures Login(username, password, lookup, hash) == Login(username', Str(password'), lookup', hash)
  {
  }

  /** A truthy password that is not a string (a number, say) does tell the
      two apart: for a known username hashing it throws and the answer is
      500, for an unknown one the answer is 401. */
  lemma NonStringPasswordTellsUsersApart(
    username: JsValue, password: JsValue, lookup: Lookup,
    username': JsValue, lookup': Lookup, hash: string -> string)
    requires Truthy(password) && !password.Str?
    requires Truthy(username) && lookup(username).None?
    requires Truthy(username') && lookup'(username').Some?
    ensures Login(username, password, lookup, hash) == LoginRejected(401, InvalidCredentials)
    ensures Login(username', password, lookup', hash) == LoginFailed
    ensures Login(username, password, lookup, hash).Status() != Login(username', password, lookup', hash).Status()
  {
  }

  /** A user registered with a password can log in with it. */
  lemma RegisteredCanLogIn(username: JsValue, password: string, lookup: Lookup, hash: string -> string, id: int, name: string)
    requires Register(username, Str(password), lookup, hash).Registered?
    ensures
      var stored := Register(username, Str(password), lookup, hash).storedPassword;
      var lookup' := (u: JsValue) => if u == username then Some(UserRecord(id, name, stored, Num(Finite(0.0)))) else lookup(u);
      Login(username, Str(password), lookup', hash) == LoggedIn(id, name, false)
  {
  }
}
