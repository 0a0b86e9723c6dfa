/**
 * The interview-session registry: create, list, get, delete and status
 * update, each scoped to the user a bearer token resolves to. Mutations
 * return the new store; the two queries return only a value.
 */
module InterviewSessions {
  import opened Wrappers
  import opened Tables
  import opened Schema
  import opened ConvexAuth

  const UnauthorizedError := "Unauthorized"
  const NotFoundError := "Session not found or unauthorized"

  /** Reply of `createSession`. */
  datatype CreateReply = Created(sessionId: nat) | CreateRefused(error: string)

  /** Reply of `deleteSession` and `updateSessionStatus`. */
  datatype MutationReply = Done | Refused(error: string)

  /**
   * Outcome of a query handler. `WriteInQuery` is the expired-token path:
   * the handler reaches the branch that deletes the expired auth session, a
   * write a read-only query cannot make, so the call fails instead of
   * returning a value.
   */
  datatype QueryOutcome<T> = Answered(value: T) | WriteInQuery

  /**
   * `authenticateUser`: no user for an unknown token; for an expired token
   * the session found is deleted and there is no user; otherwise the owning
   * user row, which may be missing. Nothing is written unless the token has
   * expired.
   */
  function AuthenticateUser(db: Db, token: string, now: int): (res: (Option<Doc<User>>, Db))
    requires ValidDb(db)
    ensures ValidDb(res.1)
    ensures res.1.users == db.users && res.1.interviewSessions == db.interviewSessions
    ensures LookupToken(db, token, now).UnknownToken? ==> res == (None, db)
    ensures LookupToken(db, token, now).ExpiredSession? ==>
      res.0.None? && RemovesRow(db.authSessions, res.1.authSessions, LookupToken(db, token, now).sessionId)
    ensures LookupToken(db, token, now).LiveSession? ==> res.1 == db
    ensures res.0.Some? <==> LookupToken(db, token, now).LiveSession? && LookupToken(db, token, now).userId in db.users.rows
    ensures res.0.Some? ==>
      res.0.value.id == LookupToken(db, token, now).userId && res.0.value.value == db.users.rows[res.0.value.id]
  {
    match LookupToken(db, token, now)
    case UnknownToken => (None, db)
    case ExpiredSession(id) => (None, db.(authSessions := Delete(db.authSessions, id)))
    case LiveSession(_, userId) =>
      if userId in db.users.rows then (Some(Doc(userId, db.users.rows[userId])), db) else (None, db)
  }

  /** The id of the user the token authenticates, when the token is live and the user row exists. */
  function Caller(db: Db, token: string, now: int): (r: Option<nat>)
    requires ValidDb(db)
    ensures r.Some? <==> AuthenticateUser(db, token, now).0.Some?
    ensures r.Some? ==> r.value == AuthenticateUser(db, token, now).0.value.id && r.value in db.users.rows
  {
    match LookupToken(db, token, now)
    case LiveSession(_, userId) => if userId in db.users.rows then Some(userId) else None
    case _ => None
  }

  /** The session exists and belongs to `userId`. */
  predicate Owns(db: Db, userId: nat, sessionId: nat) {
    sessionId in db.interviewSessions.rows && db.interviewSessions.rows[sessionId].userId == userId
  }

  /** The record `createSession` stores: pending, stamped `now` twice, no description, no call id. */
  function NewInterviewSession(userId: nat, jobTitle: string, resumeText: string, now: int): InterviewSession {
    InterviewSession(userId, jobTitle, None, resumeText, None, Pending, now, now)
  }

  /**
   * `createSession`: when the token does not authenticate, "Unauthorized"
   * and no interview session is written; otherwise exactly one new pending
   * session owned by the caller.
   */
  function CreateSession(db: Db, token: string, jobTitle: string, resumeText: string, now: int): (res: (CreateReply, Db))
    requires ValidDb(db)
    ensures ValidDb(res.1)
    ensures res.1.users == db.users
    ensures res.0.CreateRefused? <==> Caller(db, token, now).None?
    ensures res.0.CreateRefused? ==>
      res.0.error == UnauthorizedError && res.1 == AuthenticateUser(db, token, now).1 &&
      res.1.interviewSessions == db.interviewSessions
    ensures res.0.Created? ==>
      && res.1.authSessions == db.authSessions
      && AddsRow(db.interviewSessions, res.1.interviewSessions, res.0.sessionId,
                 NewInterviewSession(Caller(db, token, now).value, jobTitle, resumeText, now))
  {
    var (user, db1) := AuthenticateUser(db, token, now);
    match user
    case None => (CreateRefused(UnauthorizedError), db1)
    case Some(u) =>
      var (sessions, id) := Insert(db1.interviewSessions, NewInterviewSession(u.id, jobTitle, resumeText, now));
      (Created(id), db1.(interviewSessions := sessions))
  }

  /** `a` comes before `b` in a listing: newer first, and in insertion order among equal timestamps. */
  predicate Before(a: Doc<InterviewSession>, b: Doc<InterviewSession>) {
    a.value.createdAt > b.value.createdAt || (a.value.createdAt == b.value.createdAt && a.id < b.id)
  }

  predicate NewestFirst(docs: seq<Doc<InterviewSession>>) {
    forall i, j :: 0 <= i < j < |docs| ==> Before(docs[i], docs[j])
  }

  predicate DistinctIds(docs: seq<Doc<InterviewSession>>) {
    forall i, j :: 0 <= i < j < |docs| ==> docs[i].id != docs[j].id
  }

  /** Putting `d` in front keeps the listing ordered when `d` is at least as new as the head and older by id. */
  lemma {:induction false} InsertInFront(d: Doc<InterviewSession>, sorted: seq<Doc<InterviewSession>>)
    requires NewestFirst(sorted) && DistinctIds(sorted)
    requires forall i :: 0 <= i < |sorted| ==> d.id < sorted[i].id
    requires sorted == [] || sorted[0].value.createdAt <= d.value.createdAt
    ensures NewestFirst([d] + sorted) && DistinctIds([d] + sorted)
  {
    var r := [d] + sorted;
    forall i, j | 0 <= i < j < |r|
      ensures Before(r[i], r[j]) && r[i].id != r[j].id
    {
      assert r[j] == sorted[j - 1];
      if i == 0 {
        assert j - 1 == 0 || Before(sorted[0], sorted[j - 1]);
      } else {
        assert r[i] == sorted[i - 1];
      }
    }
  }

  /** Keeping a strictly newer head in front of an ordered tail that received `d` keeps the listing ordered. */
  lemma {:induction false} InsertBehind(d: Doc<InterviewSession>, sorted: seq<Doc<InterviewSession>>,
                                        rest: seq<Doc<InterviewSession>>)
    requires sorted != [] && sorted[0].value.createdAt > d.value.createdAt
    requires NewestFirst(sorted) && DistinctIds(sorted)
    requires forall i :: 0 <= i < |sorted| ==> d.id < sorted[i].id
    requires NewestFirst(rest) && DistinctIds(rest)
    requires forall x :: x in rest <==> x == d || x in sorted[1..]
    ensures NewestFirst([sorted[0]] + rest) && DistinctIds([sorted[0]] + rest)
  {
    var r := [sorted[0]] + rest;
    forall i, j | 0 <= i < j < |r|
      ensures Before(r[i], r[j]) && r[i].id != r[j].id
    {
      assert r[j] == rest[j - 1];
      if i == 0 {
        assert rest[j - 1] in rest;
        if rest[j - 1] != d {
          var k :| 0 <= k < |sorted[1..]| && sorted[1..][k] == rest[j - 1];
          assert sorted[k + 1] == rest[j - 1];
        }
      } else {
        assert r[i] == rest[i - 1];
      }
    }
  }

  /**
   * One step of a stable sort under the comparator `b.createdAt - a.createdAt`:
   * `d`, which came before every element of `sorted` in the input, goes in
   * front of the first element not strictly newer than it.
   */
  function InsertNewestFirst(d: Doc<InterviewSession>, sorted: seq<Doc<InterviewSession>>): (r: seq<Doc<InterviewSession>>)
    requires NewestFirst(sorted) && DistinctIds(sorted)
    requires forall i :: 0 <= i < |sorted| ==> d.id < sorted[i].id
    ensures |r| == |sorted| + 1
    ensures forall x :: x in r <==> x == d || x in sorted
    ensures NewestFirst(r) && DistinctIds(r)
  {
    if sorted == [] || sorted[0].value.createdAt <= d.value.createdAt then
      InsertInFront(d, sorted);
      [d] + sorted
    else
      var rest := InsertNewestFirst(d, sorted[1..]);
      assert sorted == [sorted[0]] + sorted[1..];
      InsertBehind(d, sorted, rest);
      [sorted[0]] + rest
  }

  /**
   * `sessions.sort((a, b) => b.createdAt - a.createdAt)` on documents listed
   * by increasing id: a permutation (same length, same elements, ids still
   * distinct) ordered newest first; the sort is stable, so ties keep
   * insertion order.
   */
  function SortNewestFirst(docs: seq<Doc<InterviewSession>>): (r: seq<Doc<InterviewSession>>)
    requires IncreasingIds(docs)
    ensures |r| == |docs|
    ensures forall x :: x in r <==> x in docs
    ensures NewestFirst(r) && DistinctIds(r)
  {
    if docs == [] then []
    else
      var rest := SortNewestFirst(docs[1..]);
      assert forall i :: 0 <= i < |rest| ==> docs[0].id < rest[i].id by {
        forall i | 0 <= i < |rest|
          ensures docs[0].id < rest[i].id
        {
          assert rest[i] in docs[1..];
          var k :| 0 <= k < |docs[1..]| && docs[1..][k] == rest[i];
          assert docs[k + 1] == rest[i];
        }
      }
      assert docs == [docs[0]] + docs[1..];
      InsertNewestFirst(docs[0], rest)
  }

  /** Sequences with the same elements have the same ids. */
  lemma SameElementsSameIds(a: seq<Doc<InterviewSession>>, b: seq<Doc<InterviewSession>>)
    requires forall x :: x in a <==> x in b
    ensures Ids(a) == Ids(b)
  {
    forall x | x in Ids(a)
      ensures x in Ids(b)
    {
      var i :| 0 <= i < |a| && a[i].id == x;
      assert a[i] in b;
      var j :| 0 <= j < |b| && b[j] == a[i];
    }
    forall x | x in Ids(b)
      ensures x in Ids(a)
    {
      var j :| 0 <= j < |b| && b[j].id == x;
      assert b[j] in a;
      var i :| 0 <= i < |a| && a[i] == b[j];
    }
  }

  /**
   * `getUserSessions`: for a live token whose user exists, exactly that
   * user's sessions, each once, newest first (ties in insertion order). An
   * unknown token or a missing user gives the empty list; an expired token
   * makes the query fail.
   */
  function GetUserSessions(db: Db, token: string, now: int): (r: QueryOutcome<seq<Doc<InterviewSession>>>)
    requires ValidDb(db)
    ensures r.WriteInQuery? <==> LookupToken(db, token, now).ExpiredSession?
    ensures r.Answered? && Caller(db, token, now).None? ==> r.value == []
    ensures r.Answered? && Caller(db, token, now).Some? ==>
      var uid := Caller(db, token, now).value;
      && NewestFirst(r.value)
      && StoredDocs(db.interviewSessions, (s: InterviewSession) => s.userId == uid, r.value)
      && Ids(r.value) == (set id | id in db.interviewSessions.rows && db.interviewSessions.rows[id].userId == uid)
      && DistinctIds(r.value)
  {
    match LookupToken(db, token, now)
    case ExpiredSession(_) => WriteInQuery
    case UnknownToken => Answered([])
    case LiveSession(_, userId) =>
      if userId !in db.users.rows then Answered([])
      else
        var owned := (s: InterviewSession) => s.userId == userId;
        var collected := Collect(db.interviewSessions, owned);
        var sorted := SortNewestFirst(collected);
        SameElementsSameIds(sorted, collected);
        assert forall i :: 0 <= i < |sorted| ==> sorted[i] in collected;
        assert MatchingIds(db.interviewSessions, owned, 0) ==
          (set id | id in db.interviewSessions.rows && db.interviewSessions.rows[id].userId == userId);
        Answered(sorted)
  }

  /**
   * `getSession`: the session when the caller owns it; null, the same null,
   * when it is missing or belongs to someone else, and when the token is
   * unknown or its user is missing. An expired token makes the query fail.
   */
  function GetSession(db: Db, token: string, sessionId: nat, now: int): (r: QueryOutcome<Option<Doc<InterviewSession>>>)
    requires ValidDb(db)
    ensures r.WriteInQuery? <==> LookupToken(db, token, now).ExpiredSession?
    ensures r.Answered? && r.value.Some? <==>
      Caller(db, token, now).Some? && Owns(db, Caller(db, token, now).value, sessionId)
    ensures r.Answered? && r.value.Some? ==>
      r.value.value == Doc(sessionId, db.interviewSessions.rows[sessionId])
  {
    match LookupToken(db, token, now)
    case ExpiredSession(_) => WriteInQuery
    case UnknownToken => Answered(None)
    case LiveSession(_, userId) =>
      if userId !in db.users.rows then Answered(None)
      else if !Owns(db, userId, sessionId) then Answered(None)
      else Answered(Some(Doc(sessionId, db.interviewSessions.rows[sessionId])))
  }

  /**
   * `deleteSession`: "Unauthorized" when the token does not authenticate;
   * "Session not found or unauthorized", changing nothing, for a missing or
   * foreign session; otherwise exactly that session is removed.
   */
  function DeleteSession(db: Db, token: string, sessionId: nat, now: int): (res: (MutationReply, Db))
    requires ValidDb(db)
    ensures ValidDb(res.1)
    ensures res.1.users == db.users
    ensures Caller(db, token, now).None? ==>
      res.0 == Refused(UnauthorizedError) && res.1 == AuthenticateUser(db, token, now).1
    ensures Caller(db, token, now).Some? && !Owns(db, Caller(db, token, now).value, sessionId) ==>
      res == (Refused(NotFoundError), db)
    ensures res.0.Done? <==> Caller(db, token, now).Some? && Owns(db, Caller(db, token, now).value, sessionId)
    ensures res.0.Done? ==>
      res.1.authSessions == db.authSessions &&
      RemovesRow(db.interviewSessions, res.1.interviewSessions, sessionId)
    ensures !res.0.Done? ==> res.1.interviewSessions == db.interviewSessions
  {
    var (user, db1) := AuthenticateUser(db, token, now);
    match user
    case None => (Refused(UnauthorizedError), db1)
    case Some(u) =>
      if !Owns(db1, u.id, sessionId) then (Refused(NotFoundError), db1)
      else (Done, db1.(interviewSessions := Delete(db1.interviewSessions, sessionId)))
  }

  /** The patch of `updateSessionStatus`: status, call id as given, and `updatedAt`. */
  function Patched(s: InterviewSession, status: Status, vapiSessionId: Option<string>, now: int): InterviewSession {
    s.(status := status, vapiSessionId := vapiSessionId, updatedAt := now)
  }

  /**
   * `updateSessionStatus`: refused as `deleteSession` refuses; for the owner
   * it accepts any of the three statuses whatever the current one, writes
   * only `status`, `vapiSessionId` (absent when not given) and `updatedAt`,
   * and leaves every other session alone.
   */
  function UpdateSessionStatus(db: Db, token: string, sessionId: nat, status: Status,
                               vapiSessionId: Option<string>, now: int): (res: (MutationReply, Db))
    requires ValidDb(db)
    ensures ValidDb(res.1)
    ensures res.1.users == db.users
    ensures Caller(db, token, now).None? ==>
      res.0 == Refused(UnauthorizedError) && res.1 == AuthenticateUser(db, token, now).1
    ensures Caller(db, token, now).Some? && !Owns(db, Caller(db, token, now).value, sessionId) ==>
      res == (Refused(NotFoundError), db)
    ensures res.0.Done? <==> Caller(db, token, now).Some? && Owns(db, Caller(db, token, now).value, sessionId)
    ensures !res.0.Done? ==> res.1.interviewSessions == db.interviewSessions
    ensures res.0.Done? ==> res.1.interviewSessions.rows.Keys == db.interviewSessions.rows.Keys
    ensures res.0.Done? ==>
      var before := db.interviewSessions.rows[sessionId];
      var after := res.1.interviewSessions.rows[sessionId];
      && res.1.authSessions == db.authSessions
      && (forall id :: id in db.interviewSessions.rows && id != sessionId ==>
            res.1.interviewSessions.rows[id] == db.interviewSessions.rows[id])
      && after.status == status && after.vapiSessionId == vapiSessionId && after.updatedAt == now
      && after.userId == before.userId && after.jobTitle == before.jobTitle
      && after.jobDescription == before.jobDescription && after.resumeText == before.resumeText
      && after.createdAt == before.createdAt
  {
    var (user, db1) := AuthenticateUser(db, token, now);
    match user
    case None => (Refused(UnauthorizedError), db1)
    case Some(u) =>
      if !Owns(db1, u.id, sessionId) then (Refused(NotFoundError), db1)
      else
        var s := db1.interviewSessions.rows[sessionId];
        (Done, db1.(interviewSessions := Put(db1.interviewSessions, sessionId, Patched(s, status, vapiSessionId, now))))
  }

  /** The store with one interview session taken out. */
  function WithoutSession(db: Db, sessionId: nat): Db {
    db.(interviewSessions := Delete(db.interviewSessions, sessionId))
  }

  /**
   * A session owned by someone else looks exactly like a missing one: get,
   * delete and status update give the caller the same replies as if the
   * session did not exist, and neither mutation changes the store.
   */
  lemma ForeignLooksMissing(db: Db, token: string, sessionId: nat, status: Status,
                            vapiSessionId: Option<string>, now: int)
    requires ValidDb(db)
    requires Caller(db, token, now).Some? && !Owns(db, Caller(db, token, now).value, sessionId)
    ensures var missing := WithoutSession(db, sessionId);
      && GetSession(db, token, sessionId, now) == GetSession(missing, token, sessionId, now)
      && DeleteSession(db, token, sessionId, now) == (DeleteSession(missing, token, sessionId, now).0, db)
      && UpdateSessionStatus(db, token, sessionId, status, vapiSessionId, now) ==
           (UpdateSessionStatus(missing, token, sessionId, status, vapiSessionId, now).0, db)
  {
    var missing := WithoutSession(db, sessionId);
    assert missing.authSessions == db.authSessions && missing.users == db.users;
    assert SessionByToken(missing, token) == SessionByToken(db, token);
    assert LookupToken(missing, token, now) == LookupToken(db, token, now);
    assert Caller(missing, token, now) == Caller(db, token, now);
    assert !Owns(missing, Caller(db, token, now).value, sessionId);
  }

  /** Queries see only the user and auth-session tables through the token: equal tables, equal caller. */
  lemma SameAuthSameCaller(db: Db, db': Db, token: string, now: int)
    requires ValidDb(db) && ValidDb(db')
    requires db'.users == db.users && db'.authSessions == db.authSessions
    ensures LookupToken(db', token, now) == LookupToken(db, token, now)
    ensures Caller(db', token, now) == Caller(db, token, now)
  {
    assert SessionByToken(db', token) == SessionByToken(db, token);
  }

  /** A session just created is returned to its creator by `getSession`, exactly as stored. */
  lemma CreateThenGet(db: Db, token: string, jobTitle: string, resumeText: string, now: int)
    requires ValidDb(db)
    requires CreateSession(db, token, jobTitle, resumeText, now).0.Created?
    ensures var (reply, db') := CreateSession(db, token, jobTitle, resumeText, now);
      GetSession(db', token, reply.sessionId, now) ==
        Answered(Some(Doc(reply.sessionId, NewInterviewSession(Caller(db, token, now).value, jobTitle, resumeText, now))))
  {
    var (reply, db') := CreateSession(db, token, jobTitle, resumeText, now);
    SameAuthSameCaller(db, db', token, now);
  }

  /** Creating a session adds exactly that session to its creator's listing. */
  lemma CreateThenList(db: Db, token: string, jobTitle: string, resumeText: string, now: int)
    requires ValidDb(db)
    requires CreateSession(db, token, jobTitle, resumeText, now).0.Created?
    ensures var (reply, db') := CreateSession(db, token, jobTitle, resumeText, now);
      && GetUserSessions(db, token, now).Answered?
      && GetUserSessions(db', token, now).Answered?
      && Ids(GetUserSessions(db', token, now).value) == Ids(GetUserSessions(db, token, now).value) + {reply.sessionId}
  {
    var (reply, db') := CreateSession(db, token, jobTitle, resumeText, now);
    SameAuthSameCaller(db, db', token, now);
    var uid := Caller(db, token, now).value;
    var before := set id | id in db.interviewSessions.rows && db.interviewSessions.rows[id].userId == uid;
    var after := set id | id in db'.interviewSessions.rows && db'.interviewSessions.rows[id].userId == uid;
    assert after == before + {reply.sessionId};
  }

  /** After its owner deletes a session, `getSession` finds nothing and the listing lost exactly that session. */
  lemma DeleteThenGet(db: Db, token: string, sessionId: nat, now: int)
    requires ValidDb(db)
    requires DeleteSession(db, token, sessionId, now).0.Done?
    ensures var db' := DeleteSession(db, token, sessionId, now).1;
      && GetSession(db', token, sessionId, now) == Answered(None)
      && GetUserSessions(db, token, now).Answered?
      && GetUserSessions(db', token, now).Answered?
      && Ids(GetUserSessions(db', token, now).value) == Ids(GetUserSessions(db, token, now).value) - {sessionId}
  {
    var db' := DeleteSession(db, token, sessionId, now).1;
    SameAuthSameCaller(db, db', token, now);
    var uid := Caller(db, token, now).value;
    var before := set id | id in db.interviewSessions.rows && db.interviewSessions.rows[id].userId == uid;
    var after := set id | id in db'.interviewSessions.rows && db'.interviewSessions.rows[id].userId == uid;
    assert after == before - {sessionId};
  }

  /** After its owner updates a session, `getSession` shows the new status and call id. */
  lemma UpdateThenGet(db: Db, token: string, sessionId: nat, status: Status,
                      vapiSessionId: Option<string>, now: int)
    requires ValidDb(db)
    requires UpdateSessionStatus(db, token, sessionId, status, vapiSessionId, now).0.Done?
    ensures var db' := UpdateSessionStatus(db, token, sessionId, status, vapiSessionId, now).1;
      var r := GetSession(db', token, sessionId, now);
      && r.Answered? && r.value.Some?
      && r.value.value.value.status == status && r.value.value.value.vapiSessionId == vapiSessionId
  {
    var db' := UpdateSessionStatus(db, token, sessionId, status, vapiSessionId, now).1;
    SameAuthSameCaller(db, db', token, now);
  }
}
