/**
 * The record shapes of the application's store: users, auth sessions
 * (bearer tokens) and interview sessions, each kept in its own table.
 * Optional fields are `Option`s; every other field is always present.
 * Timestamps are milliseconds since the epoch.
 */
module Schema {
  import opened Wrappers
  import opened Tables

  /** The three values the `status` field may take; nothing else validates. */
  datatype Status = Pending | InProgress | Completed

  /** The literal stored for each status. */
  function StatusLiteral(s: Status): string {
    match s
    case Pending => "pending"
    case InProgress => "in_progress"
    case Completed => "completed"
  }

  /** The union-of-literals validator: exactly the three literals are accepted. */
  function ParseStatus(text: string): (r: Option<Status>)
    ensures r.Some? <==> text == "pending" || text == "in_progress" || text == "completed"
    ensures r.Some? ==> StatusLiteral(r.value) == text
  {
    if text == "pending" then Some(Pending)
    else if text == "in_progress" then Some(InProgress)
    else if text == "completed" then Some(Completed)
    else None
  }

  /** Every status survives being written as its literal and validated again. */
  lemma StatusRoundTrip(s: Status)
    ensures ParseStatus(StatusLiteral(s)) == Some(s)
  {
  }

  datatype User = User(
    email: string,
    passwordHash: string,
    name: Option<string>,
    createdAt: int)

  /** A bearer token bound to the user row it authenticates. */
  datatype AuthSession = AuthSession(
    userId: nat,
    token: string,
    expiresAt: int,
    createdAt: int)

  datatype InterviewSession = InterviewSession(
    userId: nat,
    jobTitle: string,
    jobDescription: Option<string>,
    resumeText: string,
    vapiSessionId: Option<string>,
    status: Status,
    createdAt: int,
    updatedAt: int)

  datatype Db = Db(
    users: Table<User>,
    authSessions: Table<AuthSession>,
    interviewSessions: Table<InterviewSession>)

  ghost predicate ValidDb(db: Db) {
    Tables.Valid(db.users) && Tables.Valid(db.authSessions) && Tables.Valid(db.interviewSessions)
  }

  /** Thirty days, in milliseconds: the lifetime of every issued token. */
  const TokenLifetimeMs: int := 30 * 24 * 60 * 60 * 1000
}
