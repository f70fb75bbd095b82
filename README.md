# whereish backend core, modelled in Dafny

Whereish lets users share end-to-end encrypted locations with their contacts.
This project models the server side of that, in four parts.

- **The storage layer** (`store.dfy`, `sqlite.dfy`). This covers the entity types, the three sentinel errors, and the SQLite repositories. The store is a class, `Sqlite.SqliteStore`, with one map per table: users, user data, contact requests, contacts, devices, encrypted locations and sessions. Each repository method is one atomic transaction. Its contract states the new content of every table it touches, and it keeps `Valid()`. `Valid()` gathers the schema's keys, the UNIQUE constraints (lower-cased email, Google id, the ordered requester/recipient pair, device token) and the enforced foreign keys. It also requires that the contacts relation is symmetric.
- **The Go API's guard logic** (`handlers.dfy`). This covers the `Authorization` header parser, the authentication middleware, and the handlers that change state. These are LoginWithGoogle, SetUserData, RemoveContact, Send/Accept/Decline/CancelContactRequest and ShareLocations. Each handler is a method over the store. Its contract names the reply, meaning the HTTP status and the JSON error code, for every guard in order, together with the resulting store state.
- **The early Python prototype server** (`app.dfy`). Its fixed `TEST_USERS`/`TEST_CONTACTS` become constructor parameters. The `locations` table is a map field. The contact gate, the 30-minute staleness rule and the list-building loops are methods proved against specification functions.
- **Client sequences** (`scenarios.dfy`). Each of these is a method that chains several calls and states what the whole run guarantees.
  - Accept makes both users contacts.
  - Crossed requests give 409 `request_exists`.
  - Resending after a decline gives 500.
  - Resending after a cancel is accepted.
  - Optimistic versioning of user data.
  - One-shot device revocation.
  - Session expiry.
  - Case-insensitive email lookup.

Common modelling choices:

- **Time.** Time is an integer number of seconds. `ZeroTime` (0) stands for Go's zero `time.Time`.
- **Fresh values.** A fresh id or token from `uuid.New` is passed in as a parameter. When one collides with an existing key, the model follows what the database would do.
- **NULL.** SQL NULL columns (`google_id`, `public_key`, `device_id`) are the empty string, as `nullString` makes them.
- **Error mapping.** The store's sentinels come from three kinds of result, as the Go code maps them:
  - a UNIQUE failure whose message the code recognises: `ErrDuplicateKey` in user Create and CreateRequest (sqlite.go:165-166, 408-409), meaning the key is already present, but `ErrVersionConflict` in SetUserData's first insert (sqlite.go:331-333);
  - no row from a single-row query (`sql.ErrNoRows`): `ErrNotFound` in the user, request, user-data, device and session lookups, and in AcceptRequest's fetch of the request (sqlite.go:497-498);
  - an UPDATE or DELETE that changes no row (`RowsAffected() == 0`): `ErrNotFound` in user Update and Delete, DeclineRequest, CancelRequest and device Revoke, and `ErrVersionConflict` in SetUserData's versioned update (sqlite.go:346-348).

  AcceptRequest also answers `ErrNotFound` when the request is not addressed to the caller or is no longer pending (sqlite.go:505-511). Every other constraint failure (a foreign key, or a UNIQUE failure the code does not recognise, such as a session token) is `ErrDriver`.
- **Text order.** `ORDER BY` on a text column uses SQLite's BINARY collation, which compares UTF-8 bytes. Dafny characters are Unicode scalar values, and UTF-8 byte order is the same as code point order, so Ordering.LexLe, which compares characters by code point, is that collation.
- **Order of constraint checks.** SQLite checks UNIQUE before foreign keys, so a duplicate wins over a missing user.

## Model

| member | source | states |
|---|---|---|
| Store.ErrorText | server/internal/store/store.go:12-16 | each sentinel error carries a non-empty text |
| Store.SentinelsDistinct | server/internal/store/store.go:12-16 | two sentinels have equal texts exactly when they are the same error |
| Store.ParseStatus | server/internal/store/sqlite/sqlite.go:82 | the domain of the status column, whose default is 'pending' and which the accept and decline updates set to 'accepted' and 'declined': a text parses exactly when it is one of the three, and then prints back to the same text |
| Store.StatusRoundTrip | server/internal/store/sqlite/sqlite.go:82 | printing a status and parsing it back gives the same status |
| Strings.LowerChar | server/internal/store/sqlite/sqlite.go:160-167 | the result is never an upper-case letter; upper-case letters shift by 32 and every other character is kept |
| Strings.ToLower | server/internal/store/sqlite/sqlite.go:160-167 | same length, lowered pointwise, and the result has no upper-case letter |
| Strings.ToLowerOfLower | server/internal/store/sqlite/sqlite.go:160-167 | lowering a string that has no upper-case letter leaves it unchanged |
| Strings.ToLowerIdempotent | server/internal/store/sqlite/sqlite.go:197 | lowering twice is the same as lowering once, so a stored email matches its own lookup |
| Strings.EqualFold | server-go/internal/api/handlers.go:793 | strings that fold equal have the same length; equal strings fold equal; two strings with no capital letters fold equal exactly when they are equal |
| Strings.EqualFoldPointwise | server-go/internal/api/handlers.go:793 | two strings fold equal iff they have the same length and agree letter by letter up to case |
| Strings.Index | server-go/internal/api/handlers.go:800 | -1 exactly when the character is absent; otherwise a position holding it with no earlier occurrence |
| Strings.SplitN2 | server-go/internal/api/handlers.go:792 | one part, equal to s, exactly when the separator is absent; otherwise two parts that rebuild s around its first separator |
| Strings.SplitN2Join | server-go/internal/api/handlers.go:792-793 | splitting a + [c] + b, where c is not in a, gives back [a, b] |
| Strings.IndexOfJoin | server-go/internal/api/handlers.go:800 | the first c in a + [c] + b, where c is not in a, is at position the length of a |
| Ordering.InsertBy | server/internal/store/sqlite/sqlite.go:365 | inserting into a sorted sequence keeps it sorted and adds exactly one occurrence of the element |
| Ordering.PrependSorted | server/internal/store/sqlite/sqlite.go:365 | an element no greater than the head of a sorted sequence can be put in front of it |
| Ordering.Enumerate | server/internal/store/sqlite/sqlite.go:705-724 | the rows of a result set, each exactly once |
| Ordering.SortRows | server/internal/store/sqlite/sqlite.go:365 | a permutation of the result set, sorted by the ORDER BY relation |
| Ordering.LexLeTotal | server/internal/store/sqlite/sqlite.go:365 | any two names are comparable under the text order |
| Ordering.LexLeTransitive | server/internal/store/sqlite/sqlite.go:365 | the text order is transitive |
| Ordering.LexLeAntisymmetric | server/internal/store/sqlite/sqlite.go:365 | two names that are each no greater than the other are equal |
| Sqlite.ContactsByNameIsPreorder | server/internal/store/sqlite/sqlite.go:365 | ORDER BY u.name is a total preorder on contact rows |
| Sqlite.NewestFirstIsPreorder | server/internal/store/sqlite/sqlite.go:440 | ORDER BY created_at DESC is a total preorder on request rows |
| Sqlite.Upserted | server/internal/store/sqlite/sqlite.go:745-752 | upserting a batch never removes a row, and every row it adds belongs to the sender |
| Sqlite.UpsertedUntouched | server/internal/store/sqlite/sqlite.go:733-752 | a batch leaves every (from, to) row it does not name, and every other sender's row, as it was (present or absent) |
| Sqlite.UpsertedLast | server/internal/store/sqlite/sqlite.go:733-752 | after a batch, the row for (from, to) holds the blob of the last entry addressed to `to`, stamped with the batch time: re-sharing overwrites and never duplicates |
| Sqlite.UpsertedKeys | server/internal/store/sqlite/sqlite.go:733-752 | a batch creates no key other than (from, to) for one of its entries |
| Sqlite.CascadeRequests | server/internal/store/sqlite/sqlite.go:78-86 | the cascade leaves contact_requests satisfying its keys, foreign keys and UNIQUE pair |
| Sqlite.CascadeSessions | server/internal/store/sqlite/sqlite.go:114-120 | the cascade leaves every session pointing at an existing user and a NULL or existing device |
| Sqlite.NonPendingKeepsClear | server/internal/store/sqlite/sqlite.go:537-538 | writing a non-pending row cannot create a pending request between two users |
| Sqlite.RemovePairKeepsContacts | server/internal/store/sqlite/sqlite.go:385-392 | deleting both directions of a pair keeps every contact row mirrored |
| Sqlite.UpsertBatch | server/internal/store/sqlite/sqlite.go:745-754 | the loop of upserts succeeds iff every statement satisfies the foreign keys, and then yields exactly the upserted table, still consistent |
| Sqlite.SqliteStore.constructor | server/internal/store/sqlite/sqlite.go:50-135 | a fresh database has empty tables, which satisfy every constraint |
| Sqlite.SqliteStore.CreateUser | server/internal/store/sqlite/sqlite.go:152-169 | fills an empty id and zero time; a taken id, lower-cased email or Google id gives ErrDuplicateKey and no change; otherwise exactly one row is added, with the email lower-cased |
| Sqlite.SqliteStore.GetUserByID | server/internal/store/sqlite/sqlite.go:171-189 | the row with that id, or ErrNotFound exactly when there is none |
| Sqlite.SqliteStore.GetUserByEmail | server/internal/store/sqlite/sqlite.go:191-209 | finds a user iff some stored email equals the lower-cased argument, so any casing finds it; otherwise ErrNotFound |
| Sqlite.SqliteStore.GetUserByGoogleID | server/internal/store/sqlite/sqlite.go:211-229 | the unique user with that Google id; an empty id is NULL and finds nothing |
| Sqlite.SqliteStore.UpdateUser | server/internal/store/sqlite/sqlite.go:231-245 | ErrNotFound for an unknown id; an email or Google id that another user holds gives an unmapped error; otherwise only email (lower-cased), name and google_id of that row change |
| Sqlite.SqliteStore.DeleteUser | server/internal/store/sqlite/sqlite.go:247-257 | ErrNotFound and nothing changes for an unknown id; otherwise the user and every row that refers to it go (ON DELETE CASCADE / SET NULL), and all tables stay consistent |
| Sqlite.SqliteStore.GetUserData | server/internal/store/sqlite/sqlite.go:306-319 | the stored blob, of version at least 1, or ErrNotFound exactly when none is stored |
| Sqlite.SqliteStore.SetUserData | server/internal/store/sqlite/sqlite.go:321-352 | with expected version 0: creates version 1, or gives ErrVersionConflict when data exists; otherwise it succeeds iff the stored version equals the expected one, which then becomes expected + 1; every failure leaves the data unchanged |
| Sqlite.SqliteStore.ListContacts | server/internal/store/sqlite/sqlite.go:359-383 | exactly the user's contact rows joined with the contacts' user rows, each once, sorted by name |
| Sqlite.SqliteStore.RemoveContact | server/internal/store/sqlite/sqlite.go:385-392 | deletes the two direction rows of the pair and no other row |
| Sqlite.SqliteStore.CreateRequest | server/internal/store/sqlite/sqlite.go:394-412 | ErrDuplicateKey whenever a row for the ordered pair exists in any status; unmapped error for an unknown user; otherwise exactly one pending row is added |
| Sqlite.SqliteStore.GetRequest | server/internal/store/sqlite/sqlite.go:414-432 | the request with that id, whose acceptedAt is set iff it is accepted, or ErrNotFound |
| Sqlite.SqliteStore.ListIncomingRequests | server/internal/store/sqlite/sqlite.go:434-457 | exactly the pending requests addressed to the user, each once, newest first |
| Sqlite.SqliteStore.ListOutgoingRequests | server/internal/store/sqlite/sqlite.go:459-482 | exactly the pending requests sent by the user, each once, newest first |
| Sqlite.SqliteStore.AcceptRequest | server/internal/store/sqlite/sqlite.go:484-533 | ErrNotFound and nothing changes unless the request exists, is addressed to the caller and is pending; otherwise it becomes accepted with acceptedAt, and contacts gain both directions, in one transaction that rolls back if a contact row exists already |
| Sqlite.SqliteStore.DeclineRequest | server/internal/store/sqlite/sqlite.go:535-549 | only a pending request to the caller changes, and only its status, to declined; otherwise ErrNotFound and nothing changes |
| Sqlite.SqliteStore.CancelRequest | server/internal/store/sqlite/sqlite.go:551-565 | only a pending request from the caller is deleted; otherwise ErrNotFound and nothing changes |
| Sqlite.SqliteStore.CheckExistingRequest | server/internal/store/sqlite/sqlite.go:567-576 | true iff a pending request joins the pair in either direction, the same for both argument orders |
| Sqlite.SqliteStore.AreContacts | server/internal/store/sqlite/sqlite.go:578-585 | true iff the pair are contacts, the same for both argument orders |
| Sqlite.SqliteStore.CreateDevice | server/internal/store/sqlite/sqlite.go:592-610 | fills an empty id, token and zero time, with last_seen equal to the creation time and not revoked; a taken id or token, or an unknown user, is refused with no change |
| Sqlite.SqliteStore.RevokeDevice | server/internal/store/sqlite/sqlite.go:685-698 | stamps revokedAt once on the caller's unrevoked device; otherwise ErrNotFound and nothing changes |
| Sqlite.SqliteStore.GetLocationsForUser | server/internal/store/sqlite/sqlite.go:705-724 | exactly the rows shared TO the user, each once |
| Sqlite.SqliteStore.SetLocations | server/internal/store/sqlite/sqlite.go:726-755 | succeeds iff every entry names existing users, and then the table is the batch upserted from the caller (see UpsertedLast, UpsertedUntouched); otherwise it is rolled back unchanged |
| Sqlite.SqliteStore.DeleteLocationsFromUser | server/internal/store/sqlite/sqlite.go:757-762 | removes exactly the rows shared by the user |
| Sqlite.SqliteStore.DeleteLocationsBetween | server/internal/store/sqlite/sqlite.go:764-770 | removes the two rows exchanged by the pair and no others |
| Sqlite.SqliteStore.CreateSession | server/internal/store/sqlite/sqlite.go:777-791 | fills an empty token and zero time; a taken token, an unknown user or an unknown device is refused with no change; otherwise exactly one row is added |
| Sqlite.SqliteStore.GetSessionByToken | server/internal/store/sqlite/sqlite.go:793-809 | finds the session iff it exists and expires strictly after now |
| Sqlite.SqliteStore.DeleteSession | server/internal/store/sqlite/sqlite.go:811-814 | removes that token's session and no other |
| Sqlite.SqliteStore.DeleteSessionsForUser | server/internal/store/sqlite/sqlite.go:816-819 | removes exactly the user's sessions |
| Sqlite.SqliteStore.DeleteExpired | server/internal/store/sqlite/sqlite.go:821-824 | removes exactly the sessions that expired before now, keeping every one still admitted by GetByToken |
| Http.Code | server-go/internal/api/handlers.go:813-824 | statuses map to codes in 200-599, successes exactly below 300, internal errors exactly from 500 |
| Http.CodeInjective | server-go/internal/api/handlers.go:813-824 | different statuses have different numeric codes |
| Api.SessionToken | server-go/internal/api/handlers.go:799-802 | the credential unchanged iff it has no ':' or starts with one; otherwise its non-empty prefix before the first ':' |
| Api.ExtractToken | server-go/internal/api/handlers.go:786-805 | a non-empty token comes from a header whose first six characters fold to "Bearer" and are followed by a space, and it is a prefix of the text after that space |
| Api.ExtractTokenBearer | server-go/internal/api/handlers.go:786-805 | a header with a scheme equal to "Bearer" ignoring case, then a space and the credential, yields the session part of the credential, even if the credential contains spaces |
| Api.ExtractTokenOnlyBearer | server-go/internal/api/handlers.go:786-805 | a non-empty token comes only from a header whose text before the first space folds to "Bearer" |
| Api.ExtractTokenOtherScheme | server-go/internal/api/handlers.go:786-805 | any other scheme, or a header with no space, yields "" |
| Api.ToStoreLocations | server-go/internal/api/handlers.go:686-693 | one store row per entry, in order, with the same recipient and blob |
| Api.ConvertEntries | server-go/internal/api/handlers.go:686-693 | the conversion loop builds exactly ToStoreLocations of the entries |
| Api.Server.Authenticate | server-go/internal/api/handlers.go:44-80 | public paths pass; any other path is admitted iff the extracted token is non-empty and names a session that is still live, whose user exists; otherwise 401 unauthorized |
| Api.Server.FindOrCreateUser | server-go/internal/api/handlers.go:107-142 | a known Google id gives that user unchanged; failing that, a known email gives that same user with the Google id linked; failing that, a newly created user, and isNewUser is true only in this last case |
| Api.Server.LoginWithGoogle | server-go/internal/api/handlers.go:92-173 | 401 invalid_token without claims. Otherwise the user is the one already holding the Google id (users unchanged, not new); else the user with the lower-cased claimed email, now linked to the Google id (not new); else a new user under the fresh id, stored with the lower-cased email (new), or 500 with no change when that id is taken. The reply is 200 exactly when the fresh session token is free, with a session for that user and hasUserData reported truthfully, and otherwise 500 with no session |
| Api.Server.StartSession | server-go/internal/api/handlers.go:144-172 | the session row expires one session duration after now; the login reply reports whether user data exists |
| Api.Server.SetUserData | server-go/internal/api/handlers.go:322-367 | a version conflict is 409 carrying the stored version, or 0 when none is stored, with no change; success is 200 with version expected + 1 |
| Api.Server.RemoveContact | server-go/internal/api/handlers.go:396-422 | 404 and no change unless the pair are contacts; otherwise both directions of the contact and both locations exchanged are deleted, and nothing else |
| Api.Server.SendContactRequest | server-go/internal/api/handlers.go:425-493 | the guards in order: unknown email 404, oneself 400, already contacts 409 already_contacts, pending request either way 409 request_exists; then 201 and one new pending row, or 500 when an old row holds the pair |
| Api.Server.AcceptContactRequest | server-go/internal/api/handlers.go:554-602 | 404 and no change for a missing request, one to someone else, or one not pending; otherwise 200, both users become contacts both ways, and the reply is the requester as a contact |
| Api.Server.DeclineContactRequest | server-go/internal/api/handlers.go:605-619 | 204 and the request declined when it is pending and to the caller; otherwise 404 and no change |
| Api.Server.CancelContactRequest | server-go/internal/api/handlers.go:622-636 | 204 and the request deleted when it is pending and from the caller; otherwise 404 and no change |
| Api.Server.CheckRecipients | server-go/internal/api/handlers.go:672-684 | true iff every recipient is a contact of the sender |
| Api.Server.ShareLocations | server-go/internal/api/handlers.go:663-702 | all or nothing: 400 invalid_recipient and no location stored if any recipient is not a contact; otherwise 204 and every entry upserted |
| App.Lookup | server/app.py:34-50 | TEST_USERS[key] is the value of an entry with that key |
| App.Known | server/app.py:247-256 | the kept ids are among the contact ids and are known to TEST_USERS |
| App.KnownAppend | server/app.py:247-256 | the loop-append filter distributes over concatenation, so it keeps contact-list order |
| App.KnownCount | server/app.py:247-256 | each known id is kept exactly as often as it occurs in the list, and no other id is kept |
| App.StaleMonotone | server/app.py:28 | a stale location stays stale as time goes on |
| App.IsStale | server/app.py:286-289 | only a present time can be stale; a time not in the past is never stale; a present time is stale exactly when it is more than 30 minutes before now |
| App.FreshForThirtyMinutes | server/app.py:28 | a location stamped t is fresh at now exactly when now is at most 30 minutes after t |
| App.BulkStale | server/app.py:347-348 | the bulk listing's stale flag is None exactly when updated_at is None, and otherwise agrees with the 30-minute rule |
| App.LocationServer.constructor | server/app.py:34-58 | the server starts with the given TEST_USERS and TEST_CONTACTS and an empty locations table |
| App.LocationServer.ContactIds | server/app.py:247 | a user absent from TEST_CONTACTS has no contacts |
| App.LocationServer.GetCurrentUser | server/app.py:110-128 | a user is found iff the header starts with exactly "Bearer " and the rest is some user's token; then the first such user in TEST_USERS order |
| App.LocationServer.RequireAuth | server/app.py:131-140 | 401 unless get_current_user finds a user, whose token is the header's credential |
| App.LocationServer.PublishLocation | server/app.py:180-213 | 400 and no change without a payload; otherwise the caller's single row is set to the payload with updated_at now, and no other row changes |
| App.LocationServer.GetMyLocation | server/app.py:216-236 | the caller's row, or None exactly when there is none |
| App.LocationServer.GetContacts | server/app.py:239-258 | the known contact ids in list order, each with its TEST_USERS id and name |
| App.LocationServer.GetContactLocation | server/app.py:261-304 | 403 unless the id is a contact, before any row is read; otherwise the row or None, with stale iff updated_at is earlier than now minus 30 minutes, and the payload unchanged |
| App.LocationServer.Entry | server/app.py:338-354 | one listing entry: the contact's id and name, None without a row, otherwise payload, time and stale flag |
| App.LocationServer.GetAllContactLocations | server/app.py:307-358 | [] without contacts; otherwise one entry per known contact id in list order, all judged against one cutoff |
| Scenarios.SendThenAccept | server/internal/store/store.go:130-131 | after a send and an accept, the two users are contacts in both directions and the request is accepted |
| Scenarios.CrossedRequests | server-go/internal/api/handlers.go:464-474 | when two users ask each other, the second request gets 409 request_exists and only the first row exists |
| Scenarios.ResendAfterDecline | server/internal/store/sqlite/sqlite.go:85 | after a decline, the same requester asking again gets 500, because the declined row keeps the UNIQUE pair |
| Scenarios.ResendAfterCancel | server/internal/store/sqlite/sqlite.go:551-565 | after a cancel, the requester can ask again, and only the new pending row remains |
| Scenarios.RemoveTwice | server-go/internal/api/handlers.go:396-422 | the first removal answers 204 and clears contacts and locations both ways; the second answers 404 |
| Scenarios.ConcurrentUserDataWrites | server/internal/store/sqlite/sqlite.go:321-352 | of two writers reading the same version, the first wins and the second gets 409 with the first's version |
| Scenarios.RevokeTwice | server/internal/store/sqlite/sqlite.go:685-698 | revoking twice: done, then ErrNotFound, with the first revocation time kept |
| Scenarios.SessionExpiry | server/internal/store/sqlite/sqlite.go:793-824 | a session admitted before its expiry is refused with 401 at any later time from its expiry on, both before and after DeleteExpired runs at that time; the cleanup keeps the row only when it expires exactly then |
| Scenarios.BearerHeader | server-go/internal/api/handlers.go:786-805 | "Bearer " followed by a token with no ':' yields that token |
| Scenarios.EmailCaseFolding | server/internal/store/sqlite/sqlite.go:160-167 | a user created with one email casing is found under another casing, and a second user with the same email in another casing is refused with ErrDuplicateKey |

## Left out

- Case mapping, in Strings.ToLower, Strings.EqualFold and Strings.LowerChar, covers ASCII letters only. Go's `strings.ToLower` and `strings.EqualFold` are Unicode-aware.
- Identity backups are not modelled: GetIdentityBackup, SetIdentityBackup, and the hasIdentityBackup field of the login answer. The rest of the user repository does not depend on them.
- SetPublicKey, device List, device GetByID, device GetByToken and UpdateLastSeen are not modelled. They are plain reads or single-column writes outside this core.
- Several handlers are not modelled: GetHealth, Logout, DeleteAccount, GetCurrentUser, the identity-backup handlers, SetPublicKey, GetUserData, ListContacts, ListContactRequests, GetLocations, ListDevices, RegisterDevice and RevokeDevice. Most of them forward a single store call, which is modelled.
- JSON decoding, and the 400 replies it produces, are not modelled. Handlers take already-decoded arguments.
- Google ID-token verification is an external library. Its result is an `Option<GoogleClaims>`.
- Payloads and blobs are opaque strings. In the Python server a payload may be any JSON value.
- App.LocationServer.PublishLocation: does not model the request bodies that make the Python server fail with 500. A null payload violates the `payload TEXT NOT NULL` column (server/app.py:88). An object or array payload cannot be bound as an SQL parameter. A JSON list or string body that contains `payload` passes the `'payload' not in data` test and then fails at `data['payload']`, and a number body fails at that test. The model takes the body as an optional map from keys to strings, so each of these inputs is either absent or a stored string.
- HTTP headers and human-readable error messages are not modelled. A reply is a status and the machine-readable error code only.
- Concurrency, WAL mode and logging are not modelled. Each transaction is one atomic step.
- The UNIQUE check reads the error message with `strings.Contains`. The model uses "the key is already present" instead.
- Store failures other than the modelled constraints, such as I/O errors or a closed database, are not modelled. So the handlers' 500 branches for unexpected store errors cannot be reached in the model. They are still written out in the method bodies.
- `uuid.New` and `time.Now` are parameters (`freshId`, `freshToken`, `now`). Flask's `datetime.utcnow()` is the `now` parameter. Both are in seconds.
- The Python `get_db`/`init_db` connection handling, CORS headers, the OPTIONS handler, `/api/me` and `/api/auth/test-tokens` are not modelled.
- The geographic visibility filter is not modelled. No file of the system implements it: the Python server stores the payload as given.
- CheckExistingRequest: its interface comment says it checks whether a request or a contact already exists. The SQL checks only for a pending request in either direction. The model follows the code.
