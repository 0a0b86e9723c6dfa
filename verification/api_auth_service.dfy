/**
 * The REST API's authentication service: `login` and `register` over the
 * relational user store. Password hashing, hash comparison and token
 * signing are supplied as functions: `hash` is the salted bcrypt hash
 * with its salt fixed for the call, `compare` the bcrypt check and `sign`
 * the JWT signer.
 */
module ApiAuthService {
  import opened Wrappers

  /** A row of the relational `User` table; `password` may be null there. */
  datatype ApiUser = ApiUser(id: nat, username: string, email: string, password: Option<string>)

  /** The user table in insertion order, with the next auto-increment id. */
  datatype UserStore = UserStore(users: seq<ApiUser>, nextId: nat)

  /** The claims every issued token carries. */
  datatype Claims = Claims(id: nat, email: string)

  /** The HTTP exceptions the service raises, with their messages. */
  datatype AuthError = Unauthorized(message: string) | Conflict(message: string)

  datatype AuthResponse = AuthResponse(accessToken: string, user: ApiUser)

  const InvalidCredentials: string := "Invalid credentials"
  const EmailTaken: string := "Email already registered"
  const PasswordMismatch: string := "Passwords do not match"

  /** Ids are below the next id and strictly increase along the table. */
  predicate ValidStore(s: UserStore) {
    && (forall i :: 0 <= i < |s.users| ==> s.users[i].id < s.nextId)
    && (forall i, j :: 0 <= i < j < |s.users| ==> s.users[i].id < s.users[j].id)
  }

  /** No two rows share an email. */
  predicate EmailsUnique(s: UserStore) {
    forall i, j :: 0 <= i < j < |s.users| ==> s.users[i].email != s.users[j].email
  }

  /** The position of the first row with this email at or after `from`. */
  function FindFrom(users: seq<ApiUser>, email: string, from: nat): (r: Option<nat>)
    requires from <= |users|
    ensures r.Some? ==> from <= r.value < |users| && users[r.value].email == email
    ensures r.Some? ==> forall i :: from <= i < r.value ==> users[i].email != email
    ensures r.None? ==> forall i :: from <= i < |users| ==> users[i].email != email
    decreases |users| - from
  {
    if from == |users| then None
    else if users[from].email == email then Some(from)
    else FindFrom(users, email, from + 1)
  }

  /**
   * `usersService.findOne({email})`, a `findFirst` without an ordering,
   * taken here as the earliest-inserted row with that email: a row exactly
   * when some row has it.
   */
  function FindOne(s: UserStore, email: string): (r: Option<ApiUser>)
    ensures r.Some? ==> r.value in s.users && r.value.email == email
    ensures r.None? <==> forall i :: 0 <= i < |s.users| ==> s.users[i].email != email
  {
    match FindFrom(s.users, email, 0)
    case None => None
    case Some(i) => Some(s.users[i])
  }

  /** A stored password that `!user.password` does not reject: present and non-empty. */
  predicate HasPassword(u: ApiUser) {
    u.password.Some? && u.password.value != []
  }

  /**
   * `login`: a token over the user's id and email together with the user,
   * when a user with this email exists, has a stored password and the
   * password matches it; every failure is the same "Invalid credentials".
   */
  function Login(s: UserStore, email: string, password: string,
                 compare: (string, string) -> bool, sign: Claims -> string): (r: Result<AuthResponse, AuthError>)
    ensures r.Failure? ==> r.error == Unauthorized(InvalidCredentials)
    ensures r.Success? <==>
      var found := FindOne(s, email);
      found.Some? && HasPassword(found.value) && compare(password, found.value.password.value)
    ensures r.Success? ==>
      && r.value.user == FindOne(s, email).value
      && r.value.user.email == email
      && r.value.accessToken == sign(Claims(r.value.user.id, email))
  {
    match FindOne(s, email)
    case None => Failure(Unauthorized(InvalidCredentials))
    case Some(user) =>
      if !HasPassword(user) then Failure(Unauthorized(InvalidCredentials))
      else if !compare(password, user.password.value) then Failure(Unauthorized(InvalidCredentials))
      else Success(AuthResponse(sign(Claims(user.id, user.email)), user))
  }

  /** `usersService.create`: a new row under the next id at the end of the table. */
  function CreateUser(s: UserStore, username: string, email: string, hashed: string): (res: (UserStore, ApiUser))
    requires ValidStore(s)
    ensures ValidStore(res.0)
    ensures res.0.users == s.users + [res.1]
    ensures res.1 == ApiUser(s.nextId, username, email, Some(hashed))
    ensures forall i :: 0 <= i < |s.users| ==> s.users[i].id != res.1.id
  {
    var u := ApiUser(s.nextId, username, email, Some(hashed));
    (UserStore(s.users + [u], s.nextId + 1), u)
  }

  /**
   * `register`: "Email already registered" when the email is taken (checked
   * first), else "Passwords do not match" on a mismatch, neither touching
   * the store; otherwise a new user storing the hash of the password, never
   * the password itself, and a token for it. No length rule applies.
   */
  function Register(s: UserStore, username: string, email: string, password: string, confirmPassword: string,
                    hash: string -> string, sign: Claims -> string): (res: (Result<AuthResponse, AuthError>, UserStore))
    requires ValidStore(s)
    ensures ValidStore(res.1)
    ensures FindOne(s, email).Some? ==> res == (Failure(Conflict(EmailTaken)), s)
    ensures FindOne(s, email).None? && password != confirmPassword ==>
      res == (Failure(Conflict(PasswordMismatch)), s)
    ensures res.0.Success? <==> FindOne(s, email).None? && password == confirmPassword
    ensures res.0.Success? ==>
      var u := res.0.value.user;
      && res.1.users == s.users + [u]
      && u.username == username && u.email == email && u.password == Some(hash(password))
      && (forall i :: 0 <= i < |s.users| ==> s.users[i].id != u.id)
      && res.0.value.accessToken == sign(Claims(u.id, email))
  {
    if FindOne(s, email).Some? then (Failure(Conflict(EmailTaken)), s)
    else if password != confirmPassword then (Failure(Conflict(PasswordMismatch)), s)
    else
      var (s', user) := CreateUser(s, username, email, hash(password));
      (Success(AuthResponse(sign(Claims(user.id, user.email)), user)), s')
  }

  /** Registration only ever adds a fresh email, so it keeps emails unique. */
  lemma RegisterKeepsEmailsUnique(s: UserStore, username: string, email: string, password: string,
                                  confirmPassword: string, hash: string -> string, sign: Claims -> string)
    requires ValidStore(s) && EmailsUnique(s)
    ensures EmailsUnique(Register(s, username, email, password, confirmPassword, hash, sign).1)
  {
    var res := Register(s, username, email, password, confirmPassword, hash, sign);
    if res.0.Success? {
      var us := res.1.users;
      forall i, j | 0 <= i < j < |us|
        ensures us[i].email != us[j].email
      {
        if j == |s.users| {
          assert us[i] == s.users[i];
        } else {
          assert us[i] == s.users[i] && us[j] == s.users[j];
        }
      }
    }
  }

  /**
   * A freshly registered account can log in with the same password and
   * gets the registered user back, provided every hash is non-empty and
   * matches the password it was made from.
   */
  lemma RegisterThenLogin(s: UserStore, username: string, email: string, password: string,
                          hash: string -> string, compare: (string, string) -> bool, sign: Claims -> string)
    requires ValidStore(s)
    requires FindOne(s, email).None?
    requires hash(password) != [] && compare(password, hash(password))
    ensures var res := Register(s, username, email, password, password, hash, sign);
      && res.0.Success?
      && Login(res.1, email, password, compare, sign) == Success(res.0.value)
  {
    var res := Register(s, username, email, password, password, hash, sign);
    var us := res.1.users;
    assert FindFrom(us, email, |s.users|) == Some(|s.users|);
    FindFromPrefix(s.users, res.0.value.user, email, 0);
  }

  /** A search that finds nothing in a table finds the first row appended after it. */
  lemma {:induction false} FindFromPrefix(users: seq<ApiUser>, u: ApiUser, email: string, from: nat)
    requires from <= |users|
    requires FindFrom(users, email, from).None?
    ensures FindFrom(users + [u], email, from) == FindFrom(users + [u], email, |users|)
    decreases |users| - from
  {
    if from < |users| {
      assert (users + [u])[from] == users[from];
      FindFromPrefix(users, u, email, from + 1);
    }
  }

  /** Login does not reveal whether the email exists: an unknown email and a wrong password fail alike. */
  lemma LoginFailuresAlike(s: UserStore, email1: string, password1: string, email2: string, password2: string,
                           compare: (string, string) -> bool, sign: Claims -> string)
    requires Login(s, email1, password1, compare, sign).Failure?
    requires Login(s, email2, password2, compare, sign).Failure?
    ensures Login(s, email1, password1, compare, sign) == Login(s, email2, password2, compare, sign)
  {
  }
}
