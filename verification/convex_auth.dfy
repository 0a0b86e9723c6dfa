/**
 * Sign-up, sign-in, sign-out and current-user lookup over the store, each a
 * pure transition from a store to a reply and a new store. The clock is the
 * parameter `now`; the 32 random bytes of a new token are the parameter
 * `random`; `digest` stands for SHA-256 of the password's UTF-8 bytes.
 */
module ConvexAuth {
  import opened Wrappers
  import opened Hex
  import opened Tables
  import opened Schema

  const MinPasswordLength: nat := 6
  const UserExistsError := "User with this email already exists"
  const ShortPasswordError := "Password must be at least 6 characters long"
  const InvalidCredentialsError := "Invalid email or password"

  /** 64 lowercase hex characters: the shape of every token and password hash. */
  predicate IsHex64(s: string) {
    |s| == 64 && IsLowerHex(s)
  }

  /** The stored password hash: the digest's 32 bytes as lowercase hex. */
  function HashPassword(digest: string -> Bytes32, password: string): (h: string)
    ensures IsHex64(h)
    ensures HexToBytes(h) == Some(digest(password))
  {
    HexRoundTrip(digest(password));
    BytesToHex(digest(password))
  }

  /** A new token: 32 random bytes as lowercase hex; distinct bytes give distinct tokens. */
  function GenerateToken(random: Bytes32): (token: string)
    ensures IsHex64(token)
    ensures HexToBytes(token) == Some(random)
  {
    HexRoundTrip(random);
    BytesToHex(random)
  }

  /** Reply of sign-up and sign-in: `{success: true, token, userId}` or `{success: false, error}`. */
  datatype AuthReply = Granted(token: string, userId: nat) | Denied(error: string)

  /** What `getCurrentUser` hands out: never the password hash. */
  datatype PublicUser = PublicUser(id: nat, email: string, name: Option<string>)

  /** The first user row with this email (the email index is not unique). */
  function UserByEmail(db: Db, email: string): (r: Option<nat>)
    requires ValidDb(db)
    ensures r.Some? ==> r.value in db.users.rows && db.users.rows[r.value].email == email
    ensures r.Some? ==> forall id :: id in db.users.rows && db.users.rows[id].email == email ==> r.value <= id
    ensures r.None? <==> forall id :: id in db.users.rows ==> db.users.rows[id].email != email
  {
    First(db.users, (u: User) => u.email == email)
  }

  /** The first auth session carrying this token (the token index is not unique). */
  function SessionByToken(db: Db, token: string): (r: Option<nat>)
    requires ValidDb(db)
    ensures r.Some? ==> r.value in db.authSessions.rows && db.authSessions.rows[r.value].token == token
    ensures r.Some? ==> forall id :: id in db.authSessions.rows && db.authSessions.rows[id].token == token ==> r.value <= id
    ensures r.None? <==> forall id :: id in db.authSessions.rows ==> db.authSessions.rows[id].token != token
  {
    First(db.authSessions, (s: AuthSession) => s.token == token)
  }

  /** At most one auth session carries this token. */
  ghost predicate TokenUnique(db: Db, token: string) {
    forall i, j ::
      (i in db.authSessions.rows && j in db.authSessions.rows &&
       db.authSessions.rows[i].token == token && db.authSessions.rows[j].token == token) ==> i == j
  }

  /** `checkExistingUser`: some user row has this email. */
  function CheckExistingUser(db: Db, email: string): (found: bool)
    requires ValidDb(db)
    ensures found <==> exists id :: id in db.users.rows && db.users.rows[id].email == email
  {
    UserByEmail(db, email).Some?
  }

  /** The auth session row issued at `now`: it expires thirty days later. */
  function NewAuthSession(userId: nat, token: string, now: int): AuthSession {
    AuthSession(userId, token, now + TokenLifetimeMs, now)
  }

  /** Every issued token has its rendered shape and a thirty-day lifetime; every stored hash is rendered hex. */
  ghost predicate WellFormed(db: Db) {
    && ValidDb(db)
    && (forall id :: id in db.authSessions.rows ==>
          IsHex64(db.authSessions.rows[id].token) &&
          db.authSessions.rows[id].expiresAt == db.authSessions.rows[id].createdAt + TokenLifetimeMs)
    && (forall id :: id in db.users.rows ==> IsHex64(db.users.rows[id].passwordHash))
  }

  /** `t'` is `t` plus one row `r` under the fresh id `id`. */
  ghost predicate AddsRow<R>(t: Table<R>, t': Table<R>, id: nat, r: R) {
    id !in t.rows && t'.rows == t.rows[id := r]
  }

  /** `t'` is `t` less the row under `id`. */
  ghost predicate RemovesRow<R>(t: Table<R>, t': Table<R>, id: nat) {
    id in t.rows && t'.rows == t.rows - {id}
  }

  /** Issue a token for `userId`: one new auth session row, nothing else changes. */
  function IssueToken(db: Db, userId: nat, random: Bytes32, now: int): (res: (string, Db))
    requires ValidDb(db)
    ensures ValidDb(res.1) && IsHex64(res.0) && res.0 == GenerateToken(random)
    ensures res.1.users == db.users && res.1.interviewSessions == db.interviewSessions
    ensures exists id :: AddsRow(db.authSessions, res.1.authSessions, id, NewAuthSession(userId, res.0, now))
    ensures WellFormed(db) ==> WellFormed(res.1)
  {
    var token := GenerateToken(random);
    var (sessions, id) := Insert(db.authSessions, NewAuthSession(userId, token, now));
    assert AddsRow(db.authSessions, sessions, id, NewAuthSession(userId, token, now));
    (token, db.(authSessions := sessions))
  }

  /**
   * `createUserInternal`: one new user row and one auth session for it;
   * the reply carries the new token and user id.
   */
  function CreateUserInternal(db: Db, email: string, passwordHash: string, name: Option<string>,
                              random: Bytes32, now: int): (res: (AuthReply, Db))
    requires ValidDb(db)
    ensures ValidDb(res.1) && res.0.Granted?
    ensures res.0.token == GenerateToken(random)
    ensures AddsRow(db.users, res.1.users, res.0.userId, User(email, passwordHash, name, now))
    ensures exists id :: AddsRow(db.authSessions, res.1.authSessions, id, NewAuthSession(res.0.userId, res.0.token, now))
    ensures res.1.interviewSessions == db.interviewSessions
    ensures WellFormed(db) && IsHex64(passwordHash) ==> WellFormed(res.1)
  {
    var (users, userId) := Insert(db.users, User(email, passwordHash, name, now));
    var withUser := db.(users := users);
    var (token, db') := IssueToken(withUser, userId, random, now);
    (Granted(token, userId), db')
  }

  /**
   * `signUp`: an existing email is refused first, then a password shorter
   * than six characters; neither refusal writes anything. Otherwise one user
   * and one auth session are created.
   */
  function SignUp(db: Db, email: string, password: string, name: Option<string>,
                  digest: string -> Bytes32, random: Bytes32, now: int): (res: (AuthReply, Db))
    requires ValidDb(db)
    ensures ValidDb(res.1)
    ensures CheckExistingUser(db, email) ==> res == (Denied(UserExistsError), db)
    ensures !CheckExistingUser(db, email) && |password| < MinPasswordLength ==> res == (Denied(ShortPasswordError), db)
    ensures res.0.Granted? <==> !CheckExistingUser(db, email) && |password| >= MinPasswordLength
    ensures res.0.Granted? ==>
      && res.0.token == GenerateToken(random)
      && AddsRow(db.users, res.1.users, res.0.userId, User(email, HashPassword(digest, password), name, now))
      && (exists id :: AddsRow(db.authSessions, res.1.authSessions, id, NewAuthSession(res.0.userId, res.0.token, now)))
      && res.1.interviewSessions == db.interviewSessions
    ensures WellFormed(db) ==> WellFormed(res.1)
  {
    if CheckExistingUser(db, email) then (Denied(UserExistsError), db)
    else if |password| < MinPasswordLength then (Denied(ShortPasswordError), db)
    else CreateUserInternal(db, email, HashPassword(digest, password), name, random, now)
  }

  /**
   * `signIn`: an unknown email and a wrong password get the same refusal and
   * write nothing. Success adds one auth session for the first user with the
   * email; the user's other sessions stay.
   */
  function SignIn(db: Db, email: string, password: string,
                  digest: string -> Bytes32, random: Bytes32, now: int): (res: (AuthReply, Db))
    requires ValidDb(db)
    ensures ValidDb(res.1)
    ensures res.0.Denied? ==> res == (Denied(InvalidCredentialsError), db)
    ensures res.0.Granted? <==>
      UserByEmail(db, email).Some? &&
      db.users.rows[UserByEmail(db, email).value].passwordHash == HashPassword(digest, password)
    ensures res.0.Granted? ==>
      && res.0.userId == UserByEmail(db, email).value
      && res.0.token == GenerateToken(random)
      && (exists id :: AddsRow(db.authSessions, res.1.authSessions, id, NewAuthSession(res.0.userId, res.0.token, now)))
      && res.1.users == db.users && res.1.interviewSessions == db.interviewSessions
    ensures WellFormed(db) ==> WellFormed(res.1)
  {
    match UserByEmail(db, email)
    case None => (Denied(InvalidCredentialsError), db)
    case Some(userId) =>
      if HashPassword(digest, password) != db.users.rows[userId].passwordHash then
        (Denied(InvalidCredentialsError), db)
      else
        var (token, db') := IssueToken(db, userId, random, now);
        (Granted(token, userId), db')
  }

  /**
   * `signOut`: removes the first auth session carrying the token, if any.
   * Its reply is always `{success: true}`, so only the new store is modelled.
   */
  function SignOut(db: Db, token: string): (db': Db)
    requires ValidDb(db)
    ensures ValidDb(db')
    ensures db'.users == db.users && db'.interviewSessions == db.interviewSessions
    ensures SessionByToken(db, token).None? ==> db' == db
    ensures SessionByToken(db, token).Some? ==> RemovesRow(db.authSessions, db'.authSessions, SessionByToken(db, token).value)
    ensures WellFormed(db) ==> WellFormed(db')
  {
    match SessionByToken(db, token)
    case None => db
    case Some(id) => db.(authSessions := Delete(db.authSessions, id))
  }

  /** Where a token leads: nowhere, to an expired session, or to a live session of some user id. */
  datatype TokenLookup = UnknownToken | ExpiredSession(sessionId: nat) | LiveSession(sessionId: nat, userId: nat)

  /**
   * Resolving a token: the first session carrying it; expired when
   * `expiresAt < now`, so a token is still live at the instant `now == expiresAt`.
   */
  function LookupToken(db: Db, token: string, now: int): (r: TokenLookup)
    requires ValidDb(db)
    ensures r.UnknownToken? <==> SessionByToken(db, token).None?
    ensures r.ExpiredSession? ==>
      r.sessionId == SessionByToken(db, token).value && db.authSessions.rows[r.sessionId].expiresAt < now
    ensures r.LiveSession? ==>
      && r.sessionId == SessionByToken(db, token).value
      && now <= db.authSessions.rows[r.sessionId].expiresAt
      && r.userId == db.authSessions.rows[r.sessionId].userId
  {
    match SessionByToken(db, token)
    case None => UnknownToken
    case Some(id) =>
      var session := db.authSessions.rows[id];
      if session.expiresAt < now then ExpiredSession(id) else LiveSession(id, session.userId)
  }

  /**
   * `getCurrentUser`: null for an unknown token, an expired session or a
   * missing user row; otherwise the user's id, email and name. Being a query,
   * it returns no new store.
   */
  function GetCurrentUser(db: Db, token: string, now: int): (r: Option<PublicUser>)
    requires ValidDb(db)
    ensures r.None? <==>
      || SessionByToken(db, token).None?
      || db.authSessions.rows[SessionByToken(db, token).value].expiresAt < now
      || db.authSessions.rows[SessionByToken(db, token).value].userId !in db.users.rows
    ensures r.Some? ==>
      && r.value.id == db.authSessions.rows[SessionByToken(db, token).value].userId
      && r.value.email == db.users.rows[r.value.id].email
      && r.value.name == db.users.rows[r.value.id].name
  {
    match LookupToken(db, token, now)
    case UnknownToken => None
    case ExpiredSession(_) => None
    case LiveSession(_, userId) =>
      if userId in db.users.rows then
        var user := db.users.rows[userId];
        Some(PublicUser(userId, user.email, user.name))
      else None
  }

  /** Signing up with a fresh email and then signing in with the same password succeeds for the new user. */
  lemma SignUpThenSignIn(db: Db, email: string, password: string, name: Option<string>,
                         digest: string -> Bytes32, random1: Bytes32, random2: Bytes32, now1: int, now2: int)
    requires ValidDb(db)
    requires !CheckExistingUser(db, email) && |password| >= MinPasswordLength
    ensures var (r1, db1) := SignUp(db, email, password, name, digest, random1, now1);
      r1.Granted? && SignIn(db1, email, password, digest, random2, now2).0 == Granted(GenerateToken(random2), r1.userId)
  {
    var (r1, db1) := SignUp(db, email, password, name, digest, random1, now1);
    var uid := r1.userId;
    assert db1.users.rows[uid].email == email;
    assert forall id :: id in db1.users.rows && id != uid ==> id in db.users.rows;
    var first := UserByEmail(db1, email);
    assert first == Some(uid);
  }

  /**
   * A token issued by sign-in resolves to the signed-in user until it
   * expires, provided no earlier auth session already carried the same token.
   */
  lemma SignInThenCurrentUser(db: Db, email: string, password: string,
                              digest: string -> Bytes32, random: Bytes32, now: int, later: int)
    requires ValidDb(db)
    requires SignIn(db, email, password, digest, random, now).0.Granted?
    requires SessionByToken(db, GenerateToken(random)).None?
    requires later <= now + TokenLifetimeMs
    ensures var (r, db1) := SignIn(db, email, password, digest, random, now);
      GetCurrentUser(db1, r.token, later) ==
        Some(PublicUser(r.userId, db.users.rows[r.userId].email, db.users.rows[r.userId].name))
  {
    var (r, db1) := SignIn(db, email, password, digest, random, now);
    var id :| AddsRow(db.authSessions, db1.authSessions, id, NewAuthSession(r.userId, r.token, now));
    assert db1.authSessions.rows[id].token == r.token;
    assert forall k :: k in db1.authSessions.rows && k != id ==> k in db.authSessions.rows;
    assert SessionByToken(db1, r.token) == Some(id);
  }

  /** Once its only session is signed out, a token no longer resolves. */
  lemma SignOutThenCurrentUser(db: Db, token: string, now: int)
    requires ValidDb(db) && TokenUnique(db, token)
    ensures GetCurrentUser(SignOut(db, token), token, now).None?
  {
    var db' := SignOut(db, token);
    assert SessionByToken(db', token).None?;
  }

  /** Signing out twice leaves the store as signing out once, when at most one session carries the token. */
  lemma SignOutIdempotent(db: Db, token: string)
    requires ValidDb(db) && TokenUnique(db, token)
    ensures SignOut(SignOut(db, token), token) == SignOut(db, token)
  {
    var db' := SignOut(db, token);
    assert SessionByToken(db', token).None?;
  }

  /**
   * The token index does not enforce uniqueness: with two sessions carrying
   * the same token, a second sign-out removes the second session too.
   */
  lemma SignOutTwiceWithDuplicateToken(db: Db, token: string, i: nat, j: nat)
    requires ValidDb(db) && i != j
    requires i in db.authSessions.rows && j in db.authSessions.rows
    requires db.authSessions.rows[i].token == token && db.authSessions.rows[j].token == token
    ensures SignOut(SignOut(db, token), token) != SignOut(db, token)
  {
    var db' := SignOut(db, token);
    var first := SessionByToken(db, token).value;
    var other := if first == i then j else i;
    assert other in db'.authSessions.rows;
    assert SessionByToken(db', token).Some?;
    assert |SignOut(db', token).authSessions.rows| < |db'.authSessions.rows|;
  }
}
