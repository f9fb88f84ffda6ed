/** Administrator accounts and the login session: the `register`, `login`
    and `logout` routes and the `login_required` gate of app.py. */
module Accounts {
  import opened Results
  import opened Tables

  /** A row of `tb_admin`; `password` holds the stored password hash. */
  datatype Admin = Admin(username: string, password: string)

  /** The Flask session as far as the routes use it: whether the key
      `logged_in` is present in the session the client last received. */
  datatype Session = Session(loggedIn: bool)

  const Anonymous: Session := Session(false)

  /** Shortest password `register` accepts. */
  const MinPasswordLength: nat := 6

  /** Some stored admin has this username (`filter_by(username=...).first()`
      returns a row). */
  predicate HasUsername(admins: Table<Admin>, username: string) {
    exists k | k in admins.rows :: admins.rows[k].username == username
  }

  /** The `unique=True` constraint on `tb_admin.username`. */
  ghost predicate UniqueUsernames(admins: Table<Admin>) {
    forall i, j | i in admins.rows && j in admins.rows ::
      admins.rows[i].username == admins.rows[j].username ==> i == j
  }

  /** Why `register` turned a request away, one reason per check, in the
      order the checks run. */
  datatype RegisterError =
    | SessionActive      // already logged in: redirected to the dashboard
    | EmptyField         // username, password or confirmation is empty
    | PasswordMismatch   // confirmation differs from the password
    | PasswordTooShort   // fewer than MinPasswordLength characters
    | UsernameTaken      // an admin with this username exists

  /** What a registration has to satisfy, stated without the order of the
      checks: no session, a username, two equal passwords of the minimum
      length, and a username nobody holds. */
  predicate Registrable(admins: Table<Admin>, s: Session, username: string, password: string, confirm: string) {
    && !s.loggedIn
    && username != ""
    && password == confirm
    && |password| >= MinPasswordLength
    && !HasUsername(admins, username)
  }

  /** POST /register. `hashed` is what the password hasher returned for
      `password`; hashing itself is outside the model. */
  function Register(admins: Table<Admin>, s: Session, username: string, password: string,
                    confirm: string, hashed: string): (r: Result<Table<Admin>, RegisterError>)
    requires Valid(admins)
    // the checks, each consulted only when every earlier one passed
    ensures s.loggedIn ==> r == Err(SessionActive)
    ensures !s.loggedIn && (username == "" || password == "" || confirm == "") ==> r == Err(EmptyField)
    ensures (!s.loggedIn && username != "" && password != "" && confirm != "" && password != confirm)
              ==> r == Err(PasswordMismatch)
    ensures (!s.loggedIn && username != "" && password != "" && password == confirm
             && |password| < MinPasswordLength)
              ==> r == Err(PasswordTooShort)
    ensures (!s.loggedIn && username != "" && password == confirm && |password| >= MinPasswordLength
             && HasUsername(admins, username))
              ==> r == Err(UsernameTaken)
    ensures r.Ok? <==> Registrable(admins, s, username, password, confirm)
    // on success exactly one admin, with this username and hash, is added
    ensures r.Ok? ==> Valid(r.value)
    ensures r.Ok? ==> r.value.rows.Keys == admins.rows.Keys + {admins.nextId}
                      && admins.nextId !in admins.rows
                      && r.value.rows[admins.nextId] == Admin(username, hashed)
                      && forall k | k in admins.rows :: r.value.rows[k] == admins.rows[k]
    ensures r.Ok? ==> |r.value.rows| == |admins.rows| + 1
    ensures r.Ok? && UniqueUsernames(admins) ==> UniqueUsernames(r.value)
  {
    if s.loggedIn then Err(SessionActive)
    else if username == "" || password == "" || confirm == "" then Err(EmptyField)
    else if password != confirm then Err(PasswordMismatch)
    else if |password| < MinPasswordLength then Err(PasswordTooShort)
    else if HasUsername(admins, username) then Err(UsernameTaken)
    else Ok(Insert(admins, Admin(username, hashed)))
  }

  /** The stored admin `username` exists and `check`, the password-hash
      verifier, accepts `password` against its stored hash. */
  predicate CredentialsAccepted(admins: Table<Admin>, username: string, password: string,
                                check: (string, string) -> bool) {
    exists k | k in admins.rows ::
      admins.rows[k].username == username && check(admins.rows[k].password, password)
  }

  /** POST /login: an open session is left as it is; otherwise the
      `logged_in` flag is set exactly when the credentials are accepted. */
  function Login(admins: Table<Admin>, s: Session, username: string, password: string,
                 check: (string, string) -> bool): (r: Session)
    ensures s.loggedIn ==> r == s
    ensures !s.loggedIn ==> (r.loggedIn <==> CredentialsAccepted(admins, username, password, check))
    ensures r.loggedIn ==> s.loggedIn || HasUsername(admins, username)
  {
    if s.loggedIn then s
    else Session(CredentialsAccepted(admins, username, password, check))
  }

  /** GET /logout: `session.pop('logged_in', None)`, whether or not the key
      was there. */
  function Logout(s: Session): (r: Session)
    ensures !r.loggedIn
  {
    Session(false)
  }

  /** An account created by `register` can log in with the password it was
      registered with, provided the hash verifier accepts a password against
      the hash made from it. */
  lemma RegisterThenLogin(admins: Table<Admin>, s: Session, username: string, password: string,
                          hashed: string, check: (string, string) -> bool)
    requires Valid(admins)
    requires Register(admins, s, username, password, password, hashed).Ok?
    requires check(hashed, password)
    ensures Login(Register(admins, s, username, password, password, hashed).value,
                  s, username, password, check).loggedIn
  {
    var admins' := Register(admins, s, username, password, password, hashed).value;
    assert admins'.rows[admins.nextId] == Admin(username, hashed);
  }

  /** A username registered once cannot be registered again. */
  lemma RegisterTwiceRejected(admins: Table<Admin>, username: string, password: string,
                              hashed: string, password2: string, hashed2: string)
    requires Valid(admins)
    requires Register(admins, Anonymous, username, password, password, hashed).Ok?
    requires |password2| >= MinPasswordLength
    ensures
      var admins' := Register(admins, Anonymous, username, password, password, hashed).value;
      Register(admins', Anonymous, username, password2, password2, hashed2) == Err(UsernameTaken)
  {
    var admins' := Register(admins, Anonymous, username, password, password, hashed).value;
    assert admins'.rows[admins.nextId].username == username;
  }

  /** Logging out and logging in again needs the credentials again. */
  lemma LogoutThenLoginNeedsCredentials(admins: Table<Admin>, s: Session, username: string,
                                        password: string, check: (string, string) -> bool)
    ensures Login(admins, Logout(s), username, password, check).loggedIn
            <==> CredentialsAccepted(admins, username, password, check)
  {
  }
}
