# Task manager API: verified model

This project models the core of a small multi-user task-tracking REST API (Express and Mongoose).
Users register and log in, and receive a signed token that is valid for seven days.
Every task request passes a bearer-token guard. The guard resolves the caller. Each task handler then reads or changes only that caller's tasks.

The model keeps the structure of the handlers:

- `Http` holds the response envelope, the status codes, and JavaScript truthiness of request fields (`Given`).
- `Text` holds the string operations the handlers rely on: `trim`, ASCII case-insensitive substring search, and `split(" ")`.
- `ObjectIds` holds the well-formedness check on identifiers and their stored (lower-case) form.
- `TaskModel` is the task schema: required, trimmed, length-capped title and description, the status enum with its default, and the required owner. It also covers how a document is validated on creation (`Cast`) and on update (`Patched`).
- `TaskTable` holds the queries on the tasks collection:
  - the owner-scoped `findOne`;
  - the list filter;
  - the newest-first sort;
  - the skip/limit window.
- `TaskController` holds the task handlers:
  - listing and lookup by id are functions of the table;
  - create, update and delete are methods of the `TaskStore` class, which owns the table and the clock that stamps creation times.
- `Jwt` covers token claims and verification. The signing library is an abstract `Signer`.
- `UserModel` holds user records, the password-free projections, and `findOne` over the user table.
- `AuthController`:
  - token issuance;
  - the duplicate check and its message;
  - login as a function of the user table;
  - registration as a method of the `UserStore` class.
- `AuthMiddleware`:
  - token extraction from the `Authorization` header;
  - the three-way rejection ladder;
  - the `Exchange` class, whose `Protect` method either attaches the user and calls the next handler once, or writes a 401.
- `UserController` is the user search.

The central property is ownership isolation. It holds for every operation in these forms:

- Listing and lookup give the same answer on the whole table as on the caller's own tasks (`GetTasksIsolated`, `GetTaskByIdIsolated`).
- Another user's task looks exactly like a missing one (`ForeignTaskLooksMissing`).
- Create, update and delete leave every other user's part of the table unchanged (the last `ensures` of each `TaskStore` method).

Collaborators the code calls but that are not shown here become parameters:

- the id the database assigns to a new document (`newId`);
- the password hashing done when a user is saved (`hash`);
- the password comparison (`compare`);
- token signing and decoding (`Signer`);
- the current time (`now`).

Behaviour of the code worth knowing:

- The header test is `startsWith("Bearer")` with no space. So `"Bearerish tok"` also yields the token `tok` (`LooseBearerPrefix`).
- The duplicate-registration message depends on which colliding user `findOne` returns. The email does not always take precedence (`FirstCollisionDecides`).
- The list handler counts the matching tasks but never sends the count, so `TaskPage` has no total.
- A status outside the enum, or a title or description that is blank after trimming, fails in the schema. The handler catches that failure and answers 500, not 400.

## Model

| member | source | states |
|---|---|---|
| Text.Trim | models/TaskModel.js:8 | the trimmed value has no whitespace at either end and is no longer than the input |
| Text.TrimCutsOnlyWhitespace | models/TaskModel.js:8 | the input is a whitespace run, then the trimmed value, then a whitespace run: trimming removes nothing else |
| Text.TrimOfTrimmed | models/TaskModel.js:14 | a value with no whitespace at either end is stored unchanged |
| Text.TrimIdempotent | models/TaskModel.js:14 | trimming a trimmed value changes nothing |
| Text.LowerIdempotent | controllers/taskController.js:92 | lower-casing a lower-case id changes nothing, so the stored form of an id is its own stored form |
| Text.Contains | controllers/taskController.js:49-53 | true exactly when the search text occurs at some position of the field |
| Text.Split | middleware/authMiddleware.js:10 | `split(" ")` yields at least one piece, and no piece contains a space |
| Text.JoinSplit | middleware/authMiddleware.js:10 | joining the pieces with the separator gives back the header |
| Text.SplitWithoutSeparator | middleware/authMiddleware.js:10 | a string without a space is a single piece |
| Text.SplitAtFirstSeparator | middleware/authMiddleware.js:10 | the first piece ends at the first space, and the rest is split alone |
| ObjectIds.Canonical | controllers/taskController.js:92 | the stored form of an id is well formed, lower case, and equal to the id up to letter case |
| ObjectIds.CanonicalOfCanonical | controllers/taskController.js:92 | a stored id is its own stored form, and every spelling of it that differs only in letter case leads back to it |
| TaskModel.TextViolations | models/TaskModel.js:5-16 | a title or description passes exactly when it is present, non-empty after trimming, and within its cap (100 or 1000) |
| TaskModel.StatusViolations | models/TaskModel.js:17-24 | a status passes exactly when it is absent or one of pending, in_progress, completed |
| TaskModel.OwnerViolations | models/TaskModel.js:25-29 | the owner passes exactly when it is given and is an identifier (24 hexadecimal digits) |
| TaskModel.Cast | models/TaskModel.js:3-32 | an accepted document satisfies the schema and keeps the given owner, which is an identifier; a rejected one carries at least one violation |
| TaskModel.CastAcceptsExactly | models/TaskModel.js:5-29 | a document is accepted iff the trimmed title and description are non-empty and within their caps, the status is absent or allowed, and the owner is given and is an identifier |
| TaskModel.CastDefaultsAndTrims | models/TaskModel.js:5-24 | an absent status becomes pending, a given one is kept, and title and description are stored trimmed |
| TaskModel.CastIdempotent | models/TaskModel.js:5-24 | casting the stored fields again gives the same fields |
| TaskModel.Patched | controllers/taskController.js:128-132 | an update keeps id, owner and creation time; a given title or description replaces the stored one, trimmed, and an absent one is kept; it replaces the status only when one is given; an accepted update of a valid task leaves a valid task |
| TaskModel.EmptyPatchIsIdentity | controllers/taskController.js:128-132 | an update with no fields leaves the task unchanged |
| TaskTable.OwnedBy | controllers/taskController.js:43 | the caller's part of the table holds exactly the tasks owned by the caller |
| TaskTable.OwnedByCounts | controllers/taskController.js:43 | each task occurs in the caller's part exactly as often as in the table when the caller owns it, and never otherwise |
| TaskTable.OwnedByAppendForeign | controllers/taskController.js:16-21 | adding another user's task leaves the caller's part unchanged |
| TaskTable.OwnedByRemoveForeign | controllers/taskController.js:168 | removing another user's task leaves the caller's part unchanged |
| TaskTable.OwnedByReplaceForeign | controllers/taskController.js:128-132 | replacing another user's task with another of theirs leaves the caller's part unchanged |
| TaskTable.FindOwned | controllers/taskController.js:92 | the result is the first task with that id owned by the caller; none exactly when no such task exists |
| TaskTable.FindOwnedIsolated | controllers/taskController.js:92 | the owner-scoped lookup gives the same task on the whole table as on the caller's part |
| TaskTable.ForeignIdNotFound | controllers/taskController.js:92 | with unique ids, another user's task is not found even when its id is asked for |
| TaskTable.Matching | controllers/taskController.js:43-54 | the list query selects exactly the caller's tasks with the given status whose title or description contains the search text |
| TaskTable.MatchingCounts | controllers/taskController.js:43-54 | each matching task occurs in the selection exactly as often as in the table, and a task that does not match never occurs, so no task is listed twice |
| TaskTable.MatchingIsolated | controllers/taskController.js:43-54 | the list query selects the same tasks from the whole table as from the caller's part |
| TaskTable.InsertByAge | controllers/taskController.js:57 | inserting into a newest-first sequence keeps it newest first, with the same tasks plus the new one |
| TaskTable.SortNewestFirst | controllers/taskController.js:57 | the sort is newest first and a permutation of its input |
| TaskTable.Window | controllers/taskController.js:58-59 | the window holds the tasks from position skip on, at most limit of them, and all that remain when fewer are left |
| TaskTable.WindowKeepsOrder | controllers/taskController.js:56-59 | a window of a newest-first sequence is newest first |
| TaskController.GetTasksSound | controllers/taskController.js:38-78 | listing fails (500) exactly when the skip is negative; otherwise every listed task is the caller's, matches the filters, is newest first, holds at most `limit` tasks for a positive limit and at most its absolute value for a negative one, and the requested page is reported |
| TaskController.GetTasksIsPageOfRanking | controllers/taskController.js:40-59 | the page holds the ranked tasks from skip + 1 on: a full page when enough remain, the rest otherwise, and nothing past the end |
| TaskController.SecondPageOfTen | controllers/taskController.js:40-59 | with limit 10, page 2 is exactly the tasks ranked 11 to 20 |
| TaskController.GetTasksIsolated | controllers/taskController.js:43-59 | the listing response depends only on the caller's own tasks |
| TaskController.GetTaskByIdSound | controllers/taskController.js:81-113 | 400 iff the id is malformed; 404 iff the caller owns no task with that id; a returned task is the caller's and has that id |
| TaskController.GetTaskByIdIsolated | controllers/taskController.js:92 | the lookup response depends only on the caller's own tasks |
| TaskController.ForeignTaskLooksMissing | controllers/taskController.js:92-99 | asking for another user's task gives exactly the 404 of a missing id |
| TaskController.CreateDraftOwnerAndStatus | controllers/taskController.js:16-21 | a created task is owned by the caller; its status is pending when the body's status is absent or empty, otherwise the body's; a status outside the enum makes creation fail |
| TaskController.RemovePreservesWellFormed | controllers/taskController.js:168 | removing a task keeps the table invariant (every task schema-valid, its owner an identifier included; stored-form unique ids; increasing creation times below the clock) |
| TaskController.TaskStore.CreateTask | controllers/taskController.js:5-36 | 400 on missing title or description; 500 on a schema rejection; otherwise the cast task owned by the caller is appended and returned (201) and the clock advances by one; on a 400 or 500 the table and clock are unchanged; the invariant holds and other users' tasks are unchanged |
| TaskController.TaskStore.UpdateTask | controllers/taskController.js:116-154 | 400 on a malformed id; 500 on a rejected update; 404 when the caller owns no such task; otherwise only that task is replaced by its updated version and returned; the clock is unchanged; the invariant holds and other users' tasks are unchanged |
| TaskController.TaskStore.DeleteTask | controllers/taskController.js:157-189 | 400 on a malformed id; 404 when the caller owns no such task; otherwise exactly that task is removed; the clock is unchanged; the invariant holds and other users' tasks are unchanged |
| TaskController.TaskStore.CreatedTaskIsFound | controllers/taskController.js:5-36 | after a successful create, looking up the new id as its creator returns the created task: owned by the caller, title and description trimmed from the body, status `pending` when the body has none |
| TaskController.TaskStore.ForeignWriteLooksMissing | controllers/taskController.js:116-189 | updating (with fields that pass the validators) or deleting another user's task answers 404, as for a missing id, and leaves the table and clock unchanged |
| Jwt.VerifySigned | middleware/authMiddleware.js:20 | a signed token verifies to its id exactly until its expiry |
| AuthController.TokenValidForSevenDays | controllers/authController.js:6-8 | an issued token verifies to its user exactly while less than seven days have passed since issue |
| AuthController.TokenSixAndEightDays | controllers/authController.js:6-8 | a token is accepted six days after issue and rejected eight days after |
| AuthController.ConflictMessage | controllers/authController.js:22-28 | no message iff no user shares the username or email; "Email already exists" only when some user has the email; "Username already exists" only when some user has the username with another email |
| AuthController.FirstCollisionDecides | controllers/authController.js:22-28 | when one user has the username and a later one the email, the message is "Username already exists" |
| AuthController.UserStore.Register | controllers/authController.js:11-62 | 400 on any missing field; 409 with the conflict message on a duplicate; otherwise the user is stored with the hashed password and returned as a summary with a token (201); the table stays free of duplicates |
| AuthController.LoginOutcomes | controllers/authController.js:65-116 | 400 iff a field is missing; 401 iff the email is unknown or its user's password does not match, always the same 401; a 200 carries the matching user's summary and a fresh token |
| AuthController.UnknownEmailLooksLikeWrongPassword | controllers/authController.js:76-90 | an unknown email and a wrong password give identical responses |
| AuthController.RegisteredUserCanLogIn | controllers/authController.js:65-116 | after a registration with no collision, logging in with that email and a matching password succeeds for the new user |
| UserModel.FindFirst | controllers/authController.js:76 | `findOne` returns the first user satisfying the filter; none exactly when nobody does |
| UserModel.FindByOwnId | middleware/authMiddleware.js:22 | in a well-formed table, looking a user up by its own id finds that user |
| UserModel.FindFirstIgnoresPasswords | controllers/userController.js:15-17 | a filter that ignores password hashes finds the same user in tables that differ only in them |
| AuthMiddleware.ExtractToken | middleware/authMiddleware.js:9-11 | a token is found only in a header that starts with "Bearer", and it is a non-empty, space-free piece of that header |
| AuthMiddleware.ExtractTokenRule | middleware/authMiddleware.js:9-11 | for a header made of a first word starting with "Bearer", a space, a word and then nothing or more space-separated text, the token is that second word, and there is no token when that word is empty |
| AuthMiddleware.ExtractTokenNeedsSpace | middleware/authMiddleware.js:9-13 | a header starting with "Bearer" that holds no space carries no token |
| AuthMiddleware.BearerHeaderYieldsToken | middleware/authMiddleware.js:9-11 | "Bearer " followed by a token, and optionally more space-separated text, yields that token |
| AuthMiddleware.LooseBearerPrefix | middleware/authMiddleware.js:9 | a header that starts with "Bearer" plus more letters, then a space and a token, also yields the token |
| AuthMiddleware.NoTokenHeaders | middleware/authMiddleware.js:9-18 | no header, an empty one, "Bearer" alone, "Bearer" followed by two spaces, and another scheme give no token |
| AuthMiddleware.AuthenticateLadder | middleware/authMiddleware.js:5-40 | "no token" iff no token is extracted; "token failed" iff it does not verify or its id is malformed; "user not found" iff no user has the id; an admitted user is the one with that id, without password |
| AuthMiddleware.IssuedTokenAdmitsItsUser | middleware/authMiddleware.js:20-31 | the header "Bearer " + an issued token admits its user before expiry and is a failed token after |
| AuthMiddleware.AuthenticateIgnoresPasswords | middleware/authMiddleware.js:22 | the guard's decision does not depend on password hashes |
| AuthMiddleware.Exchange.Protect | middleware/authMiddleware.js:5-40 | when admitted, the user is attached and the next handler is called exactly once with no response written; otherwise a 401 with the rejection message is written, and no user is attached and no call made |
| UserController.GetUserOutcomes | controllers/userController.js:4-38 | 400 iff neither username nor email is given; 404 iff nobody matches; a 200 carries the first matching user without password |
| UserController.GetUserByUsername | controllers/userController.js:15-29 | in a well-formed table, a search by a user's username returns that user |
| UserController.GetUserIgnoresPasswords | controllers/userController.js:15-17 | the search response does not depend on password hashes |

## Left out

- Persistence, HTTP transport, logging and the operator-only `error` detail of 500 responses are not modelled. Each handler's 500 for an unavailable database is not modelled either, nor is the guard's answer to one: its catch-all (`middleware/authMiddleware.js:32-38`) turns a failed `User.findById` into the 401 "token failed". The model keeps the 500s that follow from the inputs: a negative skip, a schema rejection on create or update.
- UserModel.FindFirst: `findOne` without a sort is taken to return the first match in table order. The database promises no order: a collection scan gives natural order, an indexed `$or` may give clause order. `ConflictMessage` holds whichever colliding user is returned; `FirstCollisionDecides` and the first-match clause of `GetUserOutcomes` rely on table order.
- AuthMiddleware.Exchange.Protect: the "token failed" 401 also carries an `error` field with the library's message (expired, bad signature, malformed token, failed id cast). That field is not modelled; the rejection carries only its `message`.
- Request fields are taken to be strings or absent. JSON bodies and the query-string parser can also deliver objects, arrays or numbers. Such values would reach `findOne` as query operators (for example `{"$ne": null}`). The iff statements of `LoginOutcomes` and `GetUserOutcomes` hold only for string fields.
- TaskModel.OwnerViolations: an owner that is an identifier is kept as given, not converted to lower case as the identifier cast would. The only owner ever supplied is the authenticated user's stored id, which is already lower case. Other values Mongoose can cast to an identifier (12-byte strings, identifier objects) count as not identifiers.
- Concurrency is left out. Each operation is one atomic step on the table.
- The user schema file (`models/UserModel.js`) is not part of this model. Its validators, and the 500 "Registration failed" they can cause, are not modelled. Its pre-save hashing is the `hash` parameter.
- The id check in `utils/validateMongoDbId` is not part of this model. It is taken as "24 hexadecimal digits". Ids are compared up to letter case.
- Other strings that Mongoose can cast to an identifier, such as 12-byte strings, are not modelled. In the guard they count as malformed, which gives "token failed".
- bcrypt and jsonwebtoken are abstract: `compare`, `hash` and `Signer`. A sound signer's token decodes to its claims and contains no space. jsonwebtoken's other checks (algorithm, `nbf`) are not modelled.
- Text.ContainsIgnoringCase: the search text is used as a literal, ASCII case-insensitive substring. Regular-expression metacharacters and non-ASCII case folding are not modelled.
- TaskModel.TextViolations: string lengths count code points, not UTF-16 code units, for the length caps.
- TaskController.GetTasks: `page` and `limit` are taken to be integers. Non-numeric query strings (NaN arithmetic, `parseInt` of text) are not modelled.
- The store's clock gives every task a distinct creation time, so timestamp ties and `updatedAt` are not modelled.
- An update is taken to leave absent fields untouched.
- UserController.GetUser: a query field that is absent takes part in no clause of the `$or` filter. Mongoose's treatment of an undefined filter value is not modelled.
- The rate limiter (`middleware/rateLimiter.js`), the route wiring and server start-up are not modelled. Every task handler and the user search are taken to run behind the guard.
