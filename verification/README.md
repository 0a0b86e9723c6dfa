# MockAI core, modelled in Dafny

MockAI is a mock-interview application. This project models four parts of it
and proves properties of the model:

- **The Convex auth store** (`ConvexAuth`, over `Tables`, `Schema`, `Hex`).
  Sign-up, sign-in, sign-out and current-user lookup work over tables of users
  and bearer-token sessions. Passwords are stored as the lowercase-hex SHA-256
  digest. Tokens are 32 random bytes rendered as 64 hex digits and live thirty
  days.
- **The interview-session registry** (`InterviewSessions`). Create, list, get,
  delete and status-update of interview sessions, each scoped to the user a
  token resolves to. An expired token's session row is reaped on the way.
- **The coach-configuration layer** (`Text`, `CoachConfig`, `CoachRoute`).
  - Whitespace normalization of the resume and job description.
  - The fixed fallback configuration.
  - The builder that asks a language model for a configuration, validates it
    against the configuration schema and cleans it up.
  - The HTTP endpoint that serves the model's configuration or the fallback.
- **The REST API's authentication** (`ApiAuthService`, `ApiAuthGuard`). Login
  and register, with their check order and exceptions. The request guard reads
  the bearer token out of the `Authorization` header.

Every store operation is a pure function from the old store to a reply and the
new store. Anything the code gets from outside is a parameter:

- the clock (`now`);
- random bytes;
- the SHA-256 digest, bcrypt hash and compare;
- JWT sign and verify;
- the language-model call;
- the configured API key.

Convex document ids are modelled as increasing natural numbers. So "the
earliest row matching an index" is the matching row with the smallest id.

## Model

| member | source | states |
|---|---|---|
| Schema.ParseStatus | mockai-app/convex/schema.ts:27-31 | the status validator accepts exactly the three literals, and what it accepts is the literal of the status it returns |
| Schema.StatusRoundTrip | mockai-app/convex/schema.ts:27-31 | every status survives being written as its literal and validated again |
| Tables.Insert | mockai-app/convex/auth.ts:142-158 | `db.insert` stores the row under a fresh id larger than every id already stored, so later rows sort after earlier ones, and leaves every existing row unchanged |
| Tables.Delete | mockai-app/convex/auth.ts:217-219 | `db.delete` removes exactly that row; every other row is unchanged |
| Tables.Put | mockai-app/convex/interviewSessions.ts:172-176 | `db.patch` of an existing row replaces that row only; the set of ids and every other row are unchanged |
| Tables.First | mockai-app/convex/auth.ts:171-174 | an index lookup with `.first()` yields a matching row that has the smallest id among all matching rows, and yields nothing exactly when no row matches |
| Tables.Collect | mockai-app/convex/interviewSessions.ts:70-74 | an index scan with `.collect()` yields exactly the matching rows, each once, by increasing id |
| Hex.ToString16 | mockai-app/convex/auth.ts:17 | `toString(16)` is lowercase hex with no leading zero, its value is the number, and a byte takes at most two digits |
| Hex.PadStart | mockai-app/convex/auth.ts:17 | `padStart` keeps the text as a suffix and fills only the front with the pad character, up to the target length |
| Hex.ByteToHex | mockai-app/convex/auth.ts:17 | `b.toString(16).padStart(2, "0")` is exactly two lowercase hex digits, the high nibble first |
| Hex.BytesToHex | mockai-app/convex/auth.ts:15-18 | rendering bytes gives two lowercase hex digits per byte |
| Hex.HexRoundTrip | mockai-app/convex/auth.ts:15-18 | reading the rendered hex back gives the original bytes |
| Hex.HexInjective | mockai-app/convex/auth.ts:15-18 | distinct byte strings render to distinct hex strings, so comparing hex digests compares digests |
| ConvexAuth.HashPassword | mockai-app/convex/auth.ts:12-18 | the stored hash is 64 lowercase hex digits and decodes to the digest of the password |
| ConvexAuth.GenerateToken | mockai-app/convex/auth.ts:21-25 | a token is 64 lowercase hex digits and decodes to the 32 random bytes it was made from |
| ConvexAuth.UserByEmail | mockai-app/convex/auth.ts:171-174 | the by-email lookup returns the earliest user with that email, or nothing exactly when no user has it |
| ConvexAuth.SessionByToken | mockai-app/convex/auth.ts:212-215 | the by-token lookup returns the earliest auth session with that token, or nothing exactly when none has it |
| ConvexAuth.CheckExistingUser | mockai-app/convex/auth.ts:115-124 | true exactly when some user row has the email |
| ConvexAuth.IssueToken | mockai-app/convex/auth.ts:192-201 | issuing a token adds one auth session for the user that expires thirty days after `now`; users and interview sessions are unchanged |
| ConvexAuth.CreateUserInternal | mockai-app/convex/auth.ts:127-162 | adds the user row with the given hash and a thirty-day session for it, touches no interview session, and keeps tokens and hashes well formed |
| ConvexAuth.SignUp | mockai-app/convex/auth.ts:27-112 | an existing email is refused first, then a password under six characters, neither writing anything; otherwise a new user with the hashed password and a fresh session |
| ConvexAuth.SignIn | mockai-app/convex/auth.ts:164-205 | succeeds exactly when the earliest user with the email has the hash of the given password, then adds one session for that user; every failure is the same "Invalid email or password" with nothing written |
| ConvexAuth.SignOut | mockai-app/convex/auth.ts:207-223 | deletes the earliest session carrying the token, or nothing when none does; users and interview sessions are unchanged |
| ConvexAuth.LookupToken | mockai-app/convex/auth.ts:229-245 | classifies a token as unknown, as the earliest matching session when it has expired (`expiresAt < now`), or as a live session with its user |
| ConvexAuth.GetCurrentUser | mockai-app/convex/auth.ts:225-259 | no user exactly when the token is unknown, expired, or names a deleted user; otherwise that user's id, email and name |
| ConvexAuth.SignUpThenSignIn | mockai-app/convex/auth.ts:27-205 | after a successful sign-up, signing in with the same email and password succeeds as the new user |
| ConvexAuth.SignInThenCurrentUser | mockai-app/convex/auth.ts:164-259 | a token just issued by sign-in resolves to the signed-in user at any time within thirty days, provided no earlier auth session already carries the same token (otherwise `.first()` would return that older row) |
| ConvexAuth.SignOutThenCurrentUser | mockai-app/convex/auth.ts:207-259 | once a token held by a single session is signed out, it resolves to no user |
| ConvexAuth.SignOutIdempotent | mockai-app/convex/auth.ts:207-223 | signing out twice equals signing out once when at most one session carries the token |
| ConvexAuth.SignOutTwiceWithDuplicateToken | mockai-app/convex/auth.ts:212-219 | when two sessions carry the same token, a second sign-out removes another row, so sign-out is not idempotent in general |
| InterviewSessions.AuthenticateUser | mockai-app/convex/interviewSessions.ts:5-23 | unknown token: no user, nothing written; expired token: its session row is deleted and there is no user; live token: the owning user row if it still exists, nothing written |
| InterviewSessions.Caller | mockai-app/convex/interviewSessions.ts:5-23 | the authenticated user's id, present exactly when authentication yields a user, and always a stored user |
| InterviewSessions.CreateSession | mockai-app/convex/interviewSessions.ts:25-56 | refused with "Unauthorized" exactly when the token yields no user, with no session written; otherwise exactly one new pending session owned by the caller, stamped `now`, with no description |
| InterviewSessions.InsertNewestFirst | mockai-app/convex/interviewSessions.ts:76 | inserting a document into a newest-first listing keeps it newest-first and duplicate-free, with exactly one more element |
| InterviewSessions.SortNewestFirst | mockai-app/convex/interviewSessions.ts:76 | the stable sort by `createdAt` descending over an id-ordered scan gives the same documents ordered by creation time descending, ties by id ascending |
| InterviewSessions.SameElementsSameIds | mockai-app/convex/interviewSessions.ts:70-76 | sorting does not change which ids are listed |
| InterviewSessions.GetUserSessions | mockai-app/convex/interviewSessions.ts:58-78 | an expired token fails the query; no caller gives the empty list; otherwise every session of the caller and no other, each once, newest first |
| InterviewSessions.GetSession | mockai-app/convex/interviewSessions.ts:80-102 | the session is returned exactly when the caller owns it; an expired token fails the query |
| InterviewSessions.DeleteSession | mockai-app/convex/interviewSessions.ts:104-137 | "Unauthorized" without a user, "Session not found or unauthorized" with nothing written for a missing or foreign session; otherwise exactly that session is removed |
| InterviewSessions.UpdateSessionStatus | mockai-app/convex/interviewSessions.ts:139-182 | refused as delete refuses; for the owner, any of the three statuses is accepted from any current status; only `status`, `vapiSessionId` and `updatedAt` change, and every other session is untouched |
| InterviewSessions.ForeignLooksMissing | mockai-app/convex/interviewSessions.ts:80-182 | a session owned by someone else gives the same replies as a missing one to get, delete and update, and neither mutation writes |
| InterviewSessions.SameAuthSameCaller | mockai-app/convex/interviewSessions.ts:5-23 | who the caller is depends only on the user and auth-session tables, so writes to the session table never change it |
| InterviewSessions.CreateThenGet | mockai-app/convex/interviewSessions.ts:25-56 | a session just created is returned to its creator by `getSession` exactly as stored: owner, job title, resume text, pending, stamped `now` |
| InterviewSessions.CreateThenList | mockai-app/convex/interviewSessions.ts:25-78 | creating a session adds exactly the new id to its creator's listing |
| InterviewSessions.DeleteThenGet | mockai-app/convex/interviewSessions.ts:80-137 | after its owner deletes a session, `getSession` returns nothing for it and the listing has lost exactly that id |
| InterviewSessions.UpdateThenGet | mockai-app/convex/interviewSessions.ts:80-182 | after its owner updates a session, `getSession` shows the status and call id that were written |
| Text.Trim | mockai-app/lib/interview-coach-config.ts:24 | `trim` leaves no whitespace at either end and never lengthens the text |
| Text.TrimIsStretch | mockai-app/lib/interview-coach-config.ts:24 | what `trim` keeps is the stretch of the text between a leading and a trailing whitespace run, so with `Trim`'s own contract the result is fully determined |
| Text.TrimEmptyIffAllSpace | mockai-app/lib/interview-coach-config.ts:132 | trimming leaves nothing exactly when the text is all whitespace, which is what `filter(Boolean)` drops |
| Text.Words | mockai-app/lib/interview-coach-config.ts:24 | the whitespace-separated words of a text are non-empty and contain no whitespace |
| Text.Collapse | mockai-app/lib/interview-coach-config.ts:24 | `replace(/\s+/g, " ")` gives empty text exactly for empty text and never lengthens it; `Text.CollapseIsJoinedWords` states what the result is |
| Text.CollapseIsJoinedWords | mockai-app/lib/interview-coach-config.ts:24 | for every text, `replace(/\s+/g, " ")` turns whitespace-only text into one space (empty text stays empty), and otherwise gives the words joined by single spaces, with one space in front exactly when the text starts with whitespace and one behind exactly when it ends with whitespace |
| Text.CollapseShape | mockai-app/lib/interview-coach-config.ts:24 | after `replace(/\s+/g, " ")` no two whitespace characters are neighbours and every whitespace character left is a plain space |
| Text.SquishIsJoinedWords | mockai-app/lib/interview-coach-config.ts:24 | collapsing whitespace runs to one space and then trimming gives exactly the words joined by single spaces |
| Text.WordsOfJoin | mockai-app/lib/interview-coach-config.ts:24 | joining words with single spaces and splitting again gives the same words back |
| Text.Normalize | mockai-app/lib/interview-coach-config.ts:23-29 | the normalized text is a prefix of the words joined by single spaces, cut at the limit only when longer, and has no leading whitespace, no double spaces and no other whitespace character |
| Text.NormalizeKeepsWords | mockai-app/lib/interview-coach-config.ts:23-29 | when it fits within the limit, normalization keeps exactly the words of the input |
| Text.NormalizeSeesOnlyWords | mockai-app/lib/interview-coach-config.ts:23-29 | two texts with the same words normalize identically |
| CoachConfig.NormalizeJobDescription | mockai-app/lib/interview-coach-config.ts:27-29 | an absent description stays absent; a present one is normalized with the 8000-character limit, so it is at most 8000 characters and, by `Text.Normalize`, a prefix of its words joined by single spaces |
| CoachConfig.NormalizeResumeText | mockai-app/lib/interview-coach-config.ts:23-25 | the normalized resume is never longer than 12000 characters |
| CoachConfig.JobDescriptionSlot | mockai-app/lib/interview-coach-config.ts:44 | the prompt's description slot is "Not provided" exactly when the description is absent or has no visible character; otherwise it is the normalized description; it is never empty |
| CoachConfig.FillTemplate | mockai-app/lib/interview-coach-config.ts:39-68 | the fallback opening names the title right after the fixed greeting; the prompt carries the title, the description slot and the resume, each right after the fixed text before it; the focus areas are the three defaults |
| CoachConfig.FallbackContent | mockai-app/lib/interview-coach-config.ts:31-69 | the fallback opening names the title right after the fixed greeting; the prompt carries the title, the job-description slot and the normalized resume, each right after the fixed text before it; the focus areas are the three defaults |
| CoachConfig.FallbackMeetsSchema | mockai-app/lib/interview-coach-config.ts:9-13 | the fallback satisfies the configuration schema for every title of up to 415 characters |
| CoachConfig.FillMeetsSchema | mockai-app/lib/interview-coach-config.ts:9-13 | any template whose opening length lies in 40..600 and whose fixed rules have at least 300 characters yields a schema-valid configuration |
| CoachConfig.DefaultFocusAreasValid | mockai-app/lib/interview-coach-config.ts:63-67 | the default areas are three, each between 2 and 80 characters |
| CoachConfig.FallbackSeesOnlyWords | mockai-app/lib/interview-coach-config.ts:31-69 | re-spacing the resume does not change the fallback |
| CoachConfig.TrimmedNonEmpty | mockai-app/lib/interview-coach-config.ts:130-132 | trim-then-filter keeps one area per area with visible content, each non-empty with no whitespace at either end |
| CoachConfig.TrimmedNonEmptyAt | mockai-app/lib/interview-coach-config.ts:130-132 | every area with visible content appears trimmed, at the position given by how many areas with visible content precede it, so order is kept |
| CoachConfig.TrimmedNonEmptyFrom | mockai-app/lib/interview-coach-config.ts:130-132 | every position of the result belongs to some area with visible content, so nothing else gets in |
| CoachConfig.TrimmedNonEmptyShorter | mockai-app/lib/interview-coach-config.ts:130-132 | no cleaned area is longer than the longest raw area |
| CoachConfig.TakeSix | mockai-app/lib/interview-coach-config.ts:133 | `.slice(0, 6)` keeps the first six items in order, or all of them when there are fewer |
| CoachConfig.Cleaned | mockai-app/lib/interview-coach-config.ts:130-146 | the re-checked configuration has the reply's opening and prompt, each trimmed; its areas are the first six cleaned areas when at least three have content, and the fallback's areas otherwise |
| CoachConfig.CleanedFailsOnlyShort | mockai-app/lib/interview-coach-config.ts:130-146 | after a reply that passed the schema, the final check can fail only because trimming took the opening, the prompt or an area below its minimum length |
| CoachConfig.BuildCoachConfig | mockai-app/lib/interview-coach-config.ts:71-149 | fails without a key before calling the model, fails when the call fails or the reply or its cleaned form breaks the schema, and otherwise returns a schema-valid configuration with no surrounding whitespace; a success is exactly the cleaned form of the model's reply |
| CoachConfig.BuiltFocusAreas | mockai-app/lib/interview-coach-config.ts:130-146 | a built configuration's areas are the defaults exactly when fewer than three areas of the reply had content, and otherwise the reply's first cleaned areas in order |
| CoachConfig.BuildSeesOnlyWords | mockai-app/lib/interview-coach-config.ts:81-128 | the model is shown the resume only through its words, so re-spacing it changes nothing |
| CoachRoute.ParsePayload | mockai-app/app/api/interview/coach-config/route.ts:10-14 | an accepted payload has a title of 1 to 120 characters, an absent description or one of at most 50000, and a resume of 10 to 200000; a body that is not a JSON object is never accepted |
| CoachRoute.ParseToBody | mockai-app/app/api/interview/coach-config/route.ts:10-14 | every payload within the limits is accepted back exactly |
| CoachRoute.ParsedBodyIsToBody | mockai-app/app/api/interview/coach-config/route.ts:10-14 | an accepted body is exactly the object its payload describes |
| CoachRoute.Serve | mockai-app/app/api/interview/coach-config/route.ts:43-62 | the source is "langchain" exactly when the builder succeeded, and the data is the built configuration or else the fallback |
| CoachRoute.Post | mockai-app/app/api/interview/coach-config/route.ts:16-63 | a body that is not JSON gets 400 "Invalid JSON request body"; a schema failure gets 400 "Invalid request payload"; a valid request is always served |
| CoachRoute.ServedMeetsSchema | mockai-app/app/api/interview/coach-config/route.ts:36-62 | whatever the endpoint serves satisfies the configuration schema, whichever builder produced it |
| CoachRoute.NoKeyServesFallback | mockai-app/app/api/interview/coach-config/route.ts:36-62 | without an API key every valid request is served the fallback built from its raw fields |
| CoachRoute.FailingModelServesFallback | mockai-app/app/api/interview/coach-config/route.ts:43-62 | a failing model call never turns a valid request into an error |
| ApiAuthService.FindOne | mockai-api/src/users/users.service.ts:10-16 | a user with the email is found exactly when one exists |
| ApiAuthService.Login | mockai-api/src/auth/auth.service.ts:22-41 | for a body whose email and password are strings: succeeds exactly when the user exists, has a non-empty stored password, and the password matches it; then returns a token signed over the user's id and email, with the user; every failure is Unauthorized "Invalid credentials" |
| ApiAuthService.CreateUser | mockai-api/src/users/users.service.ts:18-22 | creating a user appends one row under a fresh id |
| ApiAuthService.Register | mockai-api/src/auth/auth.service.ts:43-67 | for a body whose fields are strings: a taken email gives Conflict "Email already registered" before a mismatch gives Conflict "Passwords do not match", neither writing; otherwise one new user storing the hash of the password, with no length rule, and a token for it |
| ApiAuthService.RegisterKeepsEmailsUnique | mockai-api/src/auth/auth.service.ts:45-61 | registration keeps emails unique across the table |
| ApiAuthService.RegisterThenLogin | mockai-api/src/auth/auth.service.ts:22-67 | a freshly registered account can log in with its password and gets the registered user back, given a hash that is non-empty and matches its password |
| ApiAuthService.LoginFailuresAlike | mockai-api/src/auth/auth.service.ts:28-35 | any two failed logins with string email and password raise the same exception, so a failure does not reveal whether the email exists |
| ApiAuthGuard.Split | mockai-api/src/auth/auth.guard.ts:31 | `split(' ')` gives at least one field, none containing a space, and joining them with single spaces restores the header |
| ApiAuthGuard.SplitJoin | mockai-api/src/auth/auth.guard.ts:31 | splitting space-free fields joined by single spaces gives those fields back |
| ApiAuthGuard.TokenOf | mockai-api/src/auth/auth.guard.ts:31-34 | the token is the second field, present exactly when that field exists and is non-empty |
| ApiAuthGuard.CanActivate | mockai-api/src/auth/auth.guard.ts:23-44 | a missing or empty header raises "No token provided"; a missing or empty second field raises "Invalid token format"; a token that does not verify raises "Invalid or expired token"; otherwise the request passes with the decoded claims, and the guard never returns false |
| ApiAuthGuard.TokenOfBearer | mockai-api/src/auth/auth.guard.ts:31-34 | for a space-free scheme word and token, the header `scheme token` yields that token |
| ApiAuthGuard.TokenAfterScheme | mockai-api/src/auth/auth.guard.ts:31-34 | after a space-free scheme word and one space, the token is whatever comes before the next space, unless that is empty |
| ApiAuthGuard.SchemeIgnored | mockai-api/src/auth/auth.guard.ts:31 | the scheme word is never checked: any two space-free words in front of the same text are treated alike |
| ApiAuthGuard.DoubleSpaceRejected | mockai-api/src/auth/auth.guard.ts:31-34 | two spaces after the scheme leave an empty token field, so the header is rejected as malformed |
| ApiAuthGuard.LoginThenGuard | mockai-api/src/auth/auth.guard.ts:23-44 | a login token sent as `Bearer <token>` lets the request through with the user's id and email, given a signer whose tokens are non-empty, space-free and verify to what was signed |

## Left out

- Time, randomness, SHA-256, bcrypt, JWT and the language model are parameters. Their cryptographic properties are not modelled. Where a proof needs one, it is a `requires`: the bcrypt compare accepting the hash of the same password, JWT verify inverting sign, and a freshly generated session token not already being stored.
- Concurrency is not modelled. Convex runs each mutation as a transaction. The two-step sign-up (the existence check, then the insert) and the REST register (find, then create) are each modelled as one atomic step, so the race between two simultaneous registrations of one email is not modelled.
- The Discord webhook notification in sign-up is left out. It is an outgoing side effect that does not influence the reply.
- String lengths count code points. JavaScript's `length`, `slice` and zod's `min`/`max` count UTF-16 code units, so text outside the Basic Multilingual Plane is measured differently.
- The clock is one `now` per call. The code reads `Date.now()` several times within one call: `createUserInternal` for the user's `createdAt`, the session's `expiresAt` and its `createdAt` (auth.ts:146-157), `issueToken` for `expiresAt` and `createdAt` (auth.ts:194-200), and `createSession` for the expiry check inside `authenticateUser` and then for `createdAt` and `updatedAt` (interviewSessions.ts:16, 47-48). Those readings can differ by a few milliseconds. The model gives them all the same value. So `WellFormed`'s `expiresAt == createdAt + TokenLifetimeMs`, the single `now` stamp in `IssueToken`, `CreateSession` and `CreateThenGet`, and `createdAt == updatedAt` on a new interview session hold in the model but only up to that drift in the code.
- The query handlers `getUserSessions` and `getSession` reach the expired-session delete inside a read-only query. They are modelled as a failing query (`WriteInQuery`), not as returning `[]` or `null`.
- `createSession` takes no job description and stores none, and `updateSessionStatus` puts no guard on status transitions (`completed` is not terminal). Both follow the code.
- ConvexAuth.SignInThenCurrentUser: assumes that no earlier auth session already carries the freshly generated token. The token index is not unique, and `.first()` would return such an older row, which may belong to another user.
- ConvexAuth.SignOutIdempotent: holds only when at most one auth session carries the token, because the token index is not unique. SignOutTwiceWithDuplicateToken shows the other case.
- ApiAuthService.FindOne: Prisma's `findFirst` without `orderBy` promises no order; the model takes the earliest-inserted row. The contracts of `Login` and `Register` are stated relative to the row `FindOne` returns, so when emails repeat (nothing in the store forbids it) which row `Login` uses is the model's choice, not something the database promises.
- ApiAuthService.Login: the request bodies are plain type aliases with no runtime validation, and the model takes `email` and `password` as strings. A body without `email` makes `findOne({email: undefined})` match the first user, since Prisma drops an undefined filter; a body without `password` for an existing user makes `bcrypt.compare` reject, giving a server error rather than "Invalid credentials". Neither outcome is modelled, and `LoginFailuresAlike` covers only string fields.
- ApiAuthService.Register: likewise takes every field as a string. A body without `email` on a non-empty table gets "Email already registered"; one with neither `password` nor `confirmPassword` passes the equality check and then `bcrypt.hash` rejects, giving a server error. Neither outcome is modelled.
- The REST register stores whatever `bcrypt.hash` returns. The salt and cost factor 10 are folded into the `hash` parameter.
- The guard's decoded payload is cast without checking. The model gives the verifier's claims type (`id`, `email`) directly.
- The fallback template text is written as a few constant pieces. `FillTemplate` states where the title, description slot and resume sit, and their lengths. It does not state the characters of the fixed text beyond those constants.
- CoachConfig.NormalizeResumeText: its contract states only the 12000-character bound. Its content is `Text.Normalize` with that limit, whose contract states it, and stating it again here would weigh on every proof about the fallback.
- The model name, temperature and prompt text sent to the language model are not modelled. The model is a function of the three inputs the builder passes it.
- The REST session endpoints, the users controller, the client UI and PDF text extraction are not part of this model.
