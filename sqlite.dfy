/** The SQLite implementation of the store, with every table held in memory.
    Each repository method is one atomic step: a transaction either commits
    all its writes or, on any failed statement, none of them. Foreign keys are
    enforced, and deleting a user cascades to every row that refers to it. */
module Sqlite {
  import opened Store
  import Strings
  import Ordering

  /** ORDER BY u.name for contact listings. */
  function ContactsByName(a: Contact, b: Contact): bool {
    Ordering.LexLe(a.name, b.name)
  }

  /** ORDER BY cr.created_at DESC for request listings. */
  function NewestFirst(a: ContactRequest, b: ContactRequest): bool {
    a.createdAt >= b.createdAt
  }

  lemma ContactsByNameIsPreorder()
    ensures Ordering.TotalPreorder(ContactsByName)
  {
    forall a: Contact, b: Contact
      ensures ContactsByName(a, b) || ContactsByName(b, a)
    {
      Ordering.LexLeTotal(a.name, b.name);
    }
    forall a: Contact, b: Contact, c: Contact | ContactsByName(a, b) && ContactsByName(b, c)
      ensures ContactsByName(a, c)
    {
      Ordering.LexLeTransitive(a.name, b.name, c.name);
    }
  }

  lemma NewestFirstIsPreorder()
    ensures Ordering.TotalPreorder(NewestFirst)
  {
  }

  /** The location rows after upserting a batch from one sender, in order:
      each entry overwrites the (from, to) row and all carry the same time. */
  function Upserted(m: map<(UserId, UserId), EncryptedLocation>, from: UserId,
                    locs: seq<EncryptedLocation>, now: Time): (r: map<(UserId, UserId), EncryptedLocation>)
    ensures m.Keys <= r.Keys
    ensures forall k :: k in r && k !in m ==> k.0 == from
    decreases |locs|
  {
    if locs == [] then m
    else
      var last := locs[|locs| - 1];
      Upserted(m, from, locs[..|locs| - 1], now)[(from, last.toUserId) := EncryptedLocation(from, last.toUserId, last.blob, now)]
  }

  /** A key that no entry of the batch names keeps its old row (or stays absent). */
  lemma {:induction false} UpsertedUntouched(m: map<(UserId, UserId), EncryptedLocation>, from: UserId,
                                             locs: seq<EncryptedLocation>, now: Time, k: (UserId, UserId))
    requires k.0 != from || forall i :: 0 <= i < |locs| ==> locs[i].toUserId != k.1
    ensures k in Upserted(m, from, locs, now) <==> k in m
    ensures k in m ==> Upserted(m, from, locs, now)[k] == m[k]
    decreases |locs|
  {
    if locs != [] {
      var n := |locs| - 1;
      assert forall i :: 0 <= i < n ==> locs[..n][i] == locs[i];
      UpsertedUntouched(m, from, locs[..n], now, k);
    }
  }

  /** The row for (from, to) carries the blob of the last entry addressed to
      `to`, stamped with the batch time: later entries win. */
  lemma {:induction false} UpsertedLast(m: map<(UserId, UserId), EncryptedLocation>, from: UserId,
                                        locs: seq<EncryptedLocation>, now: Time, i: int)
    requires 0 <= i < |locs|
    requires forall j :: i < j < |locs| ==> locs[j].toUserId != locs[i].toUserId
    ensures (from, locs[i].toUserId) in Upserted(m, from, locs, now)
    ensures Upserted(m, from, locs, now)[(from, locs[i].toUserId)] ==
            EncryptedLocation(from, locs[i].toUserId, locs[i].blob, now)
    decreases |locs|
  {
    var n := |locs| - 1;
    if i < n {
      assert forall j :: i < j < n ==> locs[..n][j] == locs[j];
      UpsertedLast(m, from, locs[..n], now, i);
    }
  }

  /** Every key of the result that was not in m is (from, to) for some entry. */
  lemma {:induction false} UpsertedKeys(m: map<(UserId, UserId), EncryptedLocation>, from: UserId,
                                        locs: seq<EncryptedLocation>, now: Time)
    ensures forall k :: k in Upserted(m, from, locs, now) ==>
      k in m || exists i :: 0 <= i < |locs| && k == (from, locs[i].toUserId)
    decreases |locs|
  {
    if locs != [] {
      var n := |locs| - 1;
      UpsertedKeys(m, from, locs[..n], now);
      forall k | k in Upserted(m, from, locs, now)
        ensures k in m || exists i :: 0 <= i < |locs| && k == (from, locs[i].toUserId)
      {
        if k != (from, locs[n].toUserId) {
          assert k in Upserted(m, from, locs[..n], now);
          if k !in m {
            var i :| 0 <= i < n && k == (from, locs[..n][i].toUserId);
            assert locs[..n][i] == locs[i];
          }
        }
      }
    }
  }

  /** The request rows that survive deleting a user: those not naming it. */
  function RequestsWithout(rs: map<RequestId, ContactRequest>, id: UserId): (r: map<RequestId, ContactRequest>)
    ensures forall k :: k in r <==> k in rs && rs[k].requesterId != id && rs[k].recipientId != id
    ensures forall k :: k in r ==> r[k] == rs[k]
  {
    map k | k in rs && rs[k].requesterId != id && rs[k].recipientId != id :: rs[k]
  }

  /** The rows keyed by a user pair that survive deleting a user. */
  function PairsWithout<V>(m: map<(UserId, UserId), V>, id: UserId): (r: map<(UserId, UserId), V>)
    ensures forall k :: k in r <==> k in m && k.0 != id && k.1 != id
    ensures forall k :: k in r ==> r[k] == m[k]
  {
    map k | k in m && k.0 != id && k.1 != id :: m[k]
  }

  function DevicesWithout(ds: map<DeviceId, Device>, id: UserId): (r: map<DeviceId, Device>)
    ensures forall k :: k in r <==> k in ds && ds[k].userId != id
    ensures forall k :: k in r ==> r[k] == ds[k]
  {
    map k | k in ds && ds[k].userId != id :: ds[k]
  }

  /** The sessions that survive deleting a user: the user's own are gone, and
      a session on one of the user's devices keeps its row with no device. */
  function SessionsWithout(ss: map<Token, Session>, ds: map<DeviceId, Device>, id: UserId): (r: map<Token, Session>)
    ensures forall t :: t in r <==> t in ss && ss[t].userId != id
    ensures forall t :: t in r ==>
      r[t] == if ss[t].deviceId in ds && ds[ss[t].deviceId].userId == id
              then ss[t].(deviceId := "") else ss[t]
  {
    map t | t in ss && ss[t].userId != id ::
      if ss[t].deviceId in ds && ds[ss[t].deviceId].userId == id then ss[t].(deviceId := "") else ss[t]
  }

  // -----------------------------------------------------------------
  // The schema's constraints, one predicate per table

  /** users: key is id; email stored lower-cased; email and google_id UNIQUE
      (a NULL google_id never clashes). */
  ghost predicate UsersOk(users: map<UserId, User>) {
    && (forall id :: id in users ==> users[id].id == id && Strings.IsLower(users[id].email))
    && (forall a, b :: a in users && b in users && users[a].email == users[b].email ==> a == b)
    && (forall a, b ::
          (a in users && b in users && users[a].googleId != "" &&
           users[a].googleId == users[b].googleId) ==> a == b)
  }

  /** user_data: owned by a user; versions start at 1. */
  ghost predicate UserDataOk(userData: map<UserId, UserData>, users: map<UserId, User>) {
    forall id :: id in userData ==> id in users && userData[id].version >= 1
  }

  /** contact_requests: key is id; both users exist; acceptedAt set exactly
      when accepted; UNIQUE(requester_id, recipient_id). */
  ghost predicate RequestsOk(requests: map<RequestId, ContactRequest>, users: map<UserId, User>) {
    && (forall id :: id in requests ==>
          requests[id].id == id && requests[id].requesterId in users &&
          requests[id].recipientId in users && WellFormedRequest(requests[id]))
    && (forall a, b ::
          (a in requests && b in requests &&
           requests[a].requesterId == requests[b].requesterId &&
           requests[a].recipientId == requests[b].recipientId) ==> a == b)
  }

  /** A request joins the two users, in either direction. */
  predicate Joins(r: ContactRequest, a: UserId, b: UserId) {
    (r.requesterId == a && r.recipientId == b) || (r.requesterId == b && r.recipientId == a)
  }

  /** Some pending request of the table joins the two users. */
  predicate PendingIn(requests: map<RequestId, ContactRequest>, a: UserId, b: UserId) {
    exists id :: id in requests && requests[id].status == Pending && Joins(requests[id], a, b)
  }

  /** Writing a row that is not pending cannot make two users pending. */
  lemma NonPendingKeepsClear(requests: map<RequestId, ContactRequest>, id: RequestId, r: ContactRequest,
                             a: UserId, b: UserId)
    requires !PendingIn(requests, a, b) && r.status != Pending
    ensures !PendingIn(requests[id := r], a, b)
  {
    forall j | j in requests[id := r] && j != id
      ensures requests[id := r][j] == requests[j]
    {
    }
  }

  /** contacts: both users exist, and every row has its mirror. */
  ghost predicate ContactsOk(contacts: map<(UserId, UserId), Time>, users: map<UserId, User>) {
    && (forall p :: p in contacts ==> p.0 in users && p.1 in users)
    && (forall a, b :: (a, b) in contacts ==> (b, a) in contacts)
  }

  /** devices: key is id; owner exists; token UNIQUE. */
  ghost predicate DevicesOk(devices: map<DeviceId, Device>, users: map<UserId, User>) {
    && (forall id :: id in devices ==> devices[id].id == id && devices[id].userId in users)
    && (forall a, b :: a in devices && b in devices && devices[a].token == devices[b].token ==> a == b)
  }

  /** encrypted_locations: key is (from, to); both users exist. */
  ghost predicate LocationsOk(locations: map<(UserId, UserId), EncryptedLocation>, users: map<UserId, User>) {
    forall k :: k in locations ==>
      locations[k].fromUserId == k.0 && locations[k].toUserId == k.1 &&
      k.0 in users && k.1 in users
  }

  /** sessions: key is token; user exists; device is NULL or exists. */
  ghost predicate SessionsOk(sessions: map<Token, Session>, users: map<UserId, User>,
                             devices: map<DeviceId, Device>) {
    forall t :: t in sessions ==>
      sessions[t].token == t && sessions[t].userId in users &&
      (sessions[t].deviceId == "" || sessions[t].deviceId in devices)
  }

  // Deleting a user with its cascade leaves every table consistent: no
  // surviving row refers to the deleted user or to one of its devices.

  lemma CascadeUsers(users: map<UserId, User>, id: UserId)
    requires UsersOk(users)
    ensures UsersOk(users - {id})
  {
  }

  lemma CascadeUserData(userData: map<UserId, UserData>, users: map<UserId, User>, id: UserId)
    requires UserDataOk(userData, users)
    ensures UserDataOk(userData - {id}, users - {id})
  {
  }

  lemma CascadeRequests(requests: map<RequestId, ContactRequest>, users: map<UserId, User>, id: UserId)
    requires RequestsOk(requests, users)
    ensures RequestsOk(RequestsWithout(requests, id), users - {id})
  {
  }

  lemma CascadeContacts(contacts: map<(UserId, UserId), Time>, users: map<UserId, User>, id: UserId)
    requires ContactsOk(contacts, users)
    ensures ContactsOk(PairsWithout(contacts, id), users - {id})
  {
  }

  lemma CascadeDevices(devices: map<DeviceId, Device>, users: map<UserId, User>, id: UserId)
    requires DevicesOk(devices, users)
    ensures DevicesOk(DevicesWithout(devices, id), users - {id})
  {
  }

  lemma CascadeLocations(locations: map<(UserId, UserId), EncryptedLocation>, users: map<UserId, User>, id: UserId)
    requires LocationsOk(locations, users)
    ensures LocationsOk(PairsWithout(locations, id), users - {id})
  {
  }

  lemma CascadeSessions(sessions: map<Token, Session>, users: map<UserId, User>,
                        devices: map<DeviceId, Device>, id: UserId)
    requires DevicesOk(devices, users) && SessionsOk(sessions, users, devices)
    ensures SessionsOk(SessionsWithout(sessions, devices, id), users - {id}, DevicesWithout(devices, id))
  {
  }

  /** Changing status (and acceptance time) of a request keeps the table's
      constraints, since the pair it names is unchanged. */
  lemma RestatusKeepsRequests(requests: map<RequestId, ContactRequest>, users: map<UserId, User>,
                              id: RequestId, r: ContactRequest)
    requires RequestsOk(requests, users)
    requires id in requests && r.id == id && WellFormedRequest(r)
    requires r.requesterId == requests[id].requesterId && r.recipientId == requests[id].recipientId
    ensures RequestsOk(requests[id := r], users)
  {
  }

  /** Inserting a request for a pair of existing users that no row names yet
      keeps the table's constraints. */
  lemma InsertKeepsRequests(requests: map<RequestId, ContactRequest>, users: map<UserId, User>,
                            r: ContactRequest)
    requires RequestsOk(requests, users)
    requires r.id !in requests && r.requesterId in users && r.recipientId in users && WellFormedRequest(r)
    requires forall k :: k in requests ==>
      !(requests[k].requesterId == r.requesterId && requests[k].recipientId == r.recipientId)
    ensures RequestsOk(requests[r.id := r], users)
  {
  }

  /** Inserting a contact pair in both directions keeps every row mirrored. */
  lemma AddPairKeepsContacts(contacts: map<(UserId, UserId), Time>, users: map<UserId, User>,
                             a: UserId, b: UserId, t: Time)
    requires ContactsOk(contacts, users) && a in users && b in users
    ensures ContactsOk(contacts[(a, b) := t][(b, a) := t], users)
  {
  }

  /** Removing a contact pair in both directions keeps every row mirrored. */
  lemma RemovePairKeepsContacts(contacts: map<(UserId, UserId), Time>, users: map<UserId, User>,
                                a: UserId, b: UserId)
    requires ContactsOk(contacts, users)
    ensures ContactsOk(contacts - {(a, b), (b, a)}, users)
  {
    var rest := contacts - {(a, b), (b, a)};
    forall x, y | (x, y) in rest
      ensures (y, x) in rest
    {
      assert (x, y) != (a, b) && (x, y) != (b, a);
    }
  }

  /** The statements of a SetLocations transaction, one upsert per entry in
      order; ok is false, and nothing is kept, as soon as one entry names a
      user that does not exist. */
  method UpsertBatch(saved: map<(UserId, UserId), EncryptedLocation>, users: map<UserId, User>,
                     fromUserId: UserId, locs: seq<EncryptedLocation>, now: Time)
    returns (ok: bool, acc: map<(UserId, UserId), EncryptedLocation>)
    requires LocationsOk(saved, users)
    ensures ok <==> locs == [] || (fromUserId in users && forall i :: 0 <= i < |locs| ==> locs[i].toUserId in users)
    ensures ok ==> acc == Upserted(saved, fromUserId, locs, now) && LocationsOk(acc, users)
  {
    acc := saved;
    var i := 0;
    while i < |locs|
      invariant 0 <= i <= |locs|
      invariant acc == Upserted(saved, fromUserId, locs[..i], now)
      invariant LocationsOk(acc, users)
      invariant i > 0 ==> fromUserId in users
      invariant forall j :: 0 <= j < i ==> locs[j].toUserId in users
    {
      var to := locs[i].toUserId;
      if fromUserId !in users || to !in users {
        return false, saved;
      }
      assert locs[..i + 1][..i] == locs[..i];
      acc := acc[(fromUserId, to) := EncryptedLocation(fromUserId, to, locs[i].blob, now)];
      i := i + 1;
    }
    assert locs[..i] == locs;
    ok := true;
  }

  class SqliteStore {
    var users: map<UserId, User>
    var userData: map<UserId, UserData>
    var requests: map<RequestId, ContactRequest>
    /** contacts(user_id, contact_id) -> created_at */
    var contacts: map<(UserId, UserId), Time>
    var devices: map<DeviceId, Device>
    /** encrypted_locations(from_user_id, to_user_id) -> row */
    var locations: map<(UserId, UserId), EncryptedLocation>
    var sessions: map<Token, Session>

    // ---------------------------------------------------------------
    // Table invariants: keys, UNIQUE constraints, foreign keys

    ghost predicate UsersValid()
      reads this`users
    {
      UsersOk(users)
    }

    ghost predicate UserDataValid()
      reads this`userData, this`users
    {
      UserDataOk(userData, users)
    }

    ghost predicate RequestsValid()
      reads this`requests, this`users
    {
      RequestsOk(requests, users)
    }

    ghost predicate ContactsValid()
      reads this`contacts, this`users
    {
      ContactsOk(contacts, users)
    }

    ghost predicate DevicesValid()
      reads this`devices, this`users
    {
      DevicesOk(devices, users)
    }

    ghost predicate LocationsValid()
      reads this`locations, this`users
    {
      LocationsOk(locations, users)
    }

    ghost predicate SessionsValid()
      reads this`sessions, this`users, this`devices
    {
      SessionsOk(sessions, users, devices)
    }

    ghost predicate Valid()
      reads this
    {
      UsersValid() && UserDataValid() && RequestsValid() && ContactsValid() &&
      DevicesValid() && LocationsValid() && SessionsValid()
    }

    constructor ()
      ensures Valid()
      ensures users == map[] && userData == map[] && requests == map[] && contacts == map[]
      ensures devices == map[] && locations == map[] && sessions == map[]
    {
      users, userData, requests, contacts := map[], map[], map[], map[];
      devices, locations, sessions := map[], map[], map[];
    }

    // ---------------------------------------------------------------
    // Queries used by the contracts

    predicate EmailTaken(email: string)
      reads this`users
    {
      exists id :: id in users && users[id].email == email
    }

    predicate GoogleIdTaken(googleId: string)
      reads this`users
    {
      exists id :: id in users && users[id].googleId == googleId
    }

    /** The one user whose stored email is `email`. */
    ghost function UserWithEmail(email: string): User
      requires EmailTaken(email)
      reads this`users
    {
      var id :| id in users && users[id].email == email; users[id]
    }

    /** Some request row, in any status, for the ordered pair. */
    predicate HasPair(requesterId: UserId, recipientId: UserId)
      reads this`requests
    {
      exists id :: id in requests && requests[id].requesterId == requesterId &&
        requests[id].recipientId == recipientId
    }

    /** A pending request between the two users, in either direction. */
    predicate PendingBetween(a: UserId, b: UserId)
      reads this`requests
    {
      PendingIn(requests, a, b)
    }

    /** The pending requests addressed to the user. */
    function IncomingRows(userId: UserId): set<ContactRequest>
      reads this`requests
    {
      set id | id in requests && requests[id].recipientId == userId &&
               requests[id].status == Pending :: requests[id]
    }

    /** The pending requests sent by the user. */
    function OutgoingRows(userId: UserId): set<ContactRequest>
      reads this`requests
    {
      set id | id in requests && requests[id].requesterId == userId &&
               requests[id].status == Pending :: requests[id]
    }

    /** The user's contact rows joined with the contacts' user rows. */
    function ContactRows(userId: UserId): set<Contact>
      reads this`contacts, this`users
    {
      set p | p in contacts && p.0 == userId && p.1 in users ::
        Contact(userId, p.1, users[p.1].name, users[p.1].email, users[p.1].publicKey, contacts[p])
    }

    /** The location rows addressed to the user. */
    function LocationsTo(userId: UserId): set<EncryptedLocation>
      reads this`locations
    {
      set k | k in locations && k.1 == userId :: locations[k]
    }

    /** Every statement of a SetLocations batch would satisfy the foreign keys. */
    predicate BatchInsertable(fromUserId: UserId, locs: seq<EncryptedLocation>)
      reads this`users
    {
      locs == [] || (fromUserId in users && forall i :: 0 <= i < |locs| ==> locs[i].toUserId in users)
    }

    // ---------------------------------------------------------------
    // userRepo

    /** Create: fills an empty id and a zero creation time, stores the email
        lower-cased, and maps any UNIQUE failure (id, email, google_id) to
        ErrDuplicateKey. Returns the caller's record with id and createdAt
        filled (its email as given). */
    method CreateUser(u: User, freshId: UserId, now: Time) returns (r: Result<User>)
      requires Valid()
      modifies this`users
      ensures Valid()
      ensures var filled := u.(id := if u.id == "" then freshId else u.id,
                               createdAt := if u.createdAt == ZeroTime then now else u.createdAt);
        var taken := filled.id in old(users) || old(EmailTaken(Strings.ToLower(u.email))) ||
                     (u.googleId != "" && old(GoogleIdTaken(u.googleId)));
        (taken ==> r == Err(ErrDuplicateKey) && users == old(users)) &&
        (!taken ==>
           r == Ok(filled) &&
           users == old(users)[filled.id := filled.(email := Strings.ToLower(u.email))])
    {
      var id := if u.id == "" then freshId else u.id;
      var created := if u.createdAt == ZeroTime then now else u.createdAt;
      var filled := u.(id := id, createdAt := created);
      var email := Strings.ToLower(u.email);
      if id in users || EmailTaken(email) || (u.googleId != "" && GoogleIdTaken(u.googleId)) {
        r := Err(ErrDuplicateKey);
        return;
      }
      users := users[id := filled.(email := email)];
      r := Ok(filled);
    }

    method GetUserByID(id: UserId) returns (r: Result<User>)
      ensures r.Ok? <==> id in users
      ensures r.Ok? ==> r.value == users[id]
      ensures r.Err? ==> r.error == ErrNotFound
    {
      if id in users {
        r := Ok(users[id]);
      } else {
        r := Err(ErrNotFound);
      }
    }

    /** GetByEmail compares against the lower-cased argument, so any casing of
        a stored email finds its user. */
    method GetUserByEmail(email: string) returns (r: Result<User>)
      requires Valid()
      ensures r.Ok? <==> EmailTaken(Strings.ToLower(email))
      ensures r.Ok? ==> r.value == UserWithEmail(Strings.ToLower(email))
      ensures r.Ok? ==> r.value.id in users && users[r.value.id] == r.value &&
                        r.value.email == Strings.ToLower(email)
      ensures r.Err? ==> r.error == ErrNotFound
    {
      var e := Strings.ToLower(email);
      if EmailTaken(e) {
        var id :| id in users && users[id].email == e;
        r := Ok(users[id]);
      } else {
        r := Err(ErrNotFound);
      }
    }

    /** GetByGoogleID; an empty id is NULL and matches no row. */
    method GetUserByGoogleID(googleId: string) returns (r: Result<User>)
      requires Valid()
      ensures r.Ok? <==> googleId != "" && GoogleIdTaken(googleId)
      ensures r.Ok? ==> r.value.id in users && users[r.value.id] == r.value &&
                        r.value.googleId == googleId
      ensures r.Ok? ==> forall id :: id in users && users[id].googleId == googleId ==> users[id] == r.value
      ensures r.Err? ==> r.error == ErrNotFound
    {
      if googleId != "" && GoogleIdTaken(googleId) {
        var id :| id in users && users[id].googleId == googleId;
        r := Ok(users[id]);
      } else {
        r := Err(ErrNotFound);
      }
    }

    /** Update rewrites email (lower-cased), name and google_id of an existing
        row. A UNIQUE failure is not mapped here and surfaces as ErrDriver. */
    method UpdateUser(u: User) returns (o: Outcome)
      requires Valid()
      modifies this`users
      ensures Valid()
      ensures var e := Strings.ToLower(u.email);
        if u.id !in old(users) then o == Fail(ErrNotFound) && users == old(users)
        else if (exists id :: id in old(users) && id != u.id && old(users)[id].email == e) ||
                (u.googleId != "" && exists id :: id in old(users) && id != u.id && old(users)[id].googleId == u.googleId)
        then o == Fail(ErrDriver) && users == old(users)
        else o == Done &&
             users == old(users)[u.id := old(users)[u.id].(email := e, name := u.name, googleId := u.googleId)]
    {
      if u.id !in users {
        o := Fail(ErrNotFound);
        return;
      }
      var e := Strings.ToLower(u.email);
      if (exists id :: id in users && id != u.id && users[id].email == e) ||
         (u.googleId != "" && exists id :: id in users && id != u.id && users[id].googleId == u.googleId) {
        o := Fail(ErrDriver);
        return;
      }
      users := users[u.id := users[u.id].(email := e, name := u.name, googleId := u.googleId)];
      o := Done;
    }

    /** Delete removes the user and, through ON DELETE CASCADE, every row
        that refers to it; sessions on the user's devices lose their device
        (ON DELETE SET NULL). */
    method DeleteUser(id: UserId) returns (o: Outcome)
      requires Valid()
      modifies this
      ensures Valid()
      ensures id !in old(users) ==>
        o == Fail(ErrNotFound) &&
        users == old(users) && userData == old(userData) && requests == old(requests) &&
        contacts == old(contacts) && devices == old(devices) && locations == old(locations) &&
        sessions == old(sessions)
      ensures id in old(users) ==>
        o == Done &&
        users == old(users) - {id} &&
        userData == old(userData) - {id} &&
        requests == RequestsWithout(old(requests), id) &&
        contacts == PairsWithout(old(contacts), id) &&
        devices == DevicesWithout(old(devices), id) &&
        locations == PairsWithout(old(locations), id) &&
        sessions == SessionsWithout(old(sessions), old(devices), id)
    {
      if id !in users {
        o := Fail(ErrNotFound);
        return;
      }
      CascadeUsers(users, id);
      CascadeUserData(userData, users, id);
      CascadeRequests(requests, users, id);
      CascadeContacts(contacts, users, id);
      CascadeDevices(devices, users, id);
      CascadeLocations(locations, users, id);
      CascadeSessions(sessions, users, devices, id);
      var oldDevices := devices;
      users := users - {id};
      userData := userData - {id};
      requests := RequestsWithout(requests, id);
      contacts := PairsWithout(contacts, id);
      devices := DevicesWithout(devices, id);
      locations := PairsWithout(locations, id);
      sessions := SessionsWithout(sessions, oldDevices, id);
      o := Done;
    }

    method GetUserData(userId: UserId) returns (r: Result<UserData>)
      requires Valid()
      ensures r.Ok? <==> userId in userData
      ensures r.Ok? ==> r.value == userData[userId] && r.value.version >= 1
      ensures r.Err? ==> r.error == ErrNotFound
    {
      if userId in userData {
        r := Ok(userData[userId]);
      } else {
        r := Err(ErrNotFound);
      }
    }

    /** SetUserData with optimistic versioning. Expected version 0 inserts
        version 1 (an existing row is a version conflict); any other expected
        version updates only a row holding exactly that version, which then
        becomes expectedVersion + 1. */
    method SetUserData(userId: UserId, blob: string, expectedVersion: int, now: Time)
      returns (r: Result<UserData>)
      requires Valid()
      modifies this`userData
      ensures Valid()
      ensures r.Err? ==> userData == old(userData)
      ensures r.Ok? ==> r.value == UserData(expectedVersion + 1, now, blob) &&
                        userData == old(userData)[userId := r.value]
      ensures expectedVersion == 0 ==>
        if userId in old(userData) then r == Err(ErrVersionConflict)
        else if userId !in users then r == Err(ErrDriver)
        else r.Ok?
      ensures expectedVersion != 0 ==>
        (r.Ok? <==> userId in old(userData) && old(userData)[userId].version == expectedVersion) &&
        (r.Err? ==> r.error == ErrVersionConflict)
    {
      if expectedVersion == 0 {
        if userId in userData {
          r := Err(ErrVersionConflict);
        } else if userId !in users {
          r := Err(ErrDriver);
        } else {
          var data := UserData(1, now, blob);
          userData := userData[userId := data];
          r := Ok(data);
        }
        return;
      }
      if userId in userData && userData[userId].version == expectedVersion {
        var data := UserData(expectedVersion + 1, now, blob);
        userData := userData[userId := data];
        r := Ok(data);
      } else {
        r := Err(ErrVersionConflict);
      }
    }

    // ---------------------------------------------------------------
    // contactRepo

    method ListContacts(userId: UserId) returns (cs: seq<Contact>)
      ensures multiset(cs) == multiset(ContactRows(userId))
      ensures Ordering.SortedBy(cs, ContactsByName)
      ensures forall c :: c in cs ==> c.userId == userId && (userId, c.contactId) in contacts
    {
      ContactsByNameIsPreorder();
      cs := Ordering.SortRows(ContactRows(userId), ContactsByName);
      assert forall c :: c in cs ==> c in multiset(cs);
    }

    /** RemoveContact deletes both direction rows and nothing else. */
    method RemoveContact(userId: UserId, contactId: UserId) returns (o: Outcome)
      requires Valid()
      modifies this`contacts
      ensures Valid()
      ensures o == Done
      ensures contacts == old(contacts) - {(userId, contactId), (contactId, userId)}
    {
      RemovePairKeepsContacts(contacts, users, userId, contactId);
      contacts := contacts - {(userId, contactId), (contactId, userId)};
      o := Done;
    }

    /** CreateRequest inserts a pending row. UNIQUE(requester_id,
        recipient_id) holds over every status, so any earlier row for the
        ordered pair, pending, accepted or declined, makes it ErrDuplicateKey. */
    method CreateRequest(requesterId: UserId, recipientId: UserId, freshId: RequestId, now: Time)
      returns (r: Result<ContactRequest>)
      requires Valid()
      modifies this`requests
      ensures Valid()
      ensures var row := ContactRequest(freshId, requesterId, recipientId, Pending, now, None);
        if freshId in old(requests) || old(HasPair(requesterId, recipientId)) then
          r == Err(ErrDuplicateKey) && requests == old(requests)
        else if requesterId !in users || recipientId !in users then
          r == Err(ErrDriver) && requests == old(requests)
        else
          r == Ok(row) && requests == old(requests)[freshId := row]
    {
      if freshId in requests || HasPair(requesterId, recipientId) {
        r := Err(ErrDuplicateKey);
        return;
      }
      if requesterId !in users || recipientId !in users {
        r := Err(ErrDriver);
        return;
      }
      var row := ContactRequest(freshId, requesterId, recipientId, Pending, now, None);
      InsertKeepsRequests(requests, users, row);
      requests := requests[freshId := row];
      r := Ok(row);
    }

    method GetRequest(requestId: RequestId) returns (r: Result<ContactRequest>)
      requires Valid()
      ensures r.Ok? <==> requestId in requests
      ensures r.Ok? ==> r.value == requests[requestId] && r.value.id == requestId
      ensures r.Ok? ==> (r.value.acceptedAt.Some? <==> r.value.status == Accepted)
      ensures r.Err? ==> r.error == ErrNotFound
    {
      if requestId in requests {
        r := Ok(requests[requestId]);
      } else {
        r := Err(ErrNotFound);
      }
    }

    method ListIncomingRequests(userId: UserId) returns (rs: seq<ContactRequest>)
      requires Valid()
      ensures multiset(rs) == multiset(IncomingRows(userId))
      ensures Ordering.SortedBy(rs, NewestFirst)
      ensures forall r :: r in rs ==>
        r.recipientId == userId && r.status == Pending && r.id in requests && requests[r.id] == r
    {
      NewestFirstIsPreorder();
      rs := Ordering.SortRows(IncomingRows(userId), NewestFirst);
      forall r | r in rs
        ensures r.recipientId == userId && r.status == Pending && r.id in requests && requests[r.id] == r
      {
        assert r in multiset(rs);
        var id :| id in requests && requests[id] == r;
      }
    }

    method ListOutgoingRequests(userId: UserId) returns (rs: seq<ContactRequest>)
      requires Valid()
      ensures multiset(rs) == multiset(OutgoingRows(userId))
      ensures Ordering.SortedBy(rs, NewestFirst)
      ensures forall r :: r in rs ==>
        r.requesterId == userId && r.status == Pending && r.id in requests && requests[r.id] == r
    {
      NewestFirstIsPreorder();
      rs := Ordering.SortRows(OutgoingRows(userId), NewestFirst);
      forall r | r in rs
        ensures r.requesterId == userId && r.status == Pending && r.id in requests && requests[r.id] == r
      {
        assert r in multiset(rs);
        var id :| id in requests && requests[id] == r;
      }
    }

    /** AcceptRequest, one transaction: ErrNotFound unless the request exists,
        is addressed to the caller and is pending; then status 'accepted' with
        acceptedAt, and contact rows in both directions. If either contact row
        already exists (or the request is to oneself, so both rows coincide),
        the insert violates the primary key and the transaction rolls back. */
    method AcceptRequest(requestId: RequestId, userId: UserId, now: Time) returns (o: Outcome)
      requires Valid()
      modifies this`requests, this`contacts
      ensures Valid()
      ensures if requestId !in old(requests) || old(requests)[requestId].recipientId != userId ||
                 old(requests)[requestId].status != Pending then
          o == Fail(ErrNotFound) && requests == old(requests) && contacts == old(contacts)
        else
          var req := old(requests)[requestId];
          var a, b := req.requesterId, req.recipientId;
          if a == b || (a, b) in old(contacts) || (b, a) in old(contacts) then
            o == Fail(ErrDriver) && requests == old(requests) && contacts == old(contacts)
          else
            o == Done &&
            requests == old(requests)[requestId := req.(status := Accepted, acceptedAt := Some(now))] &&
            contacts == old(contacts)[(a, b) := now][(b, a) := now]
    {
      if requestId !in requests {
        o := Fail(ErrNotFound);
        return;
      }
      var req := requests[requestId];
      if req.recipientId != userId || req.status != Pending {
        o := Fail(ErrNotFound);
        return;
      }
      var a, b := req.requesterId, req.recipientId;
      if a == b || (a, b) in contacts || (b, a) in contacts {
        o := Fail(ErrDriver);
        return;
      }
      RestatusKeepsRequests(requests, users, requestId, req.(status := Accepted, acceptedAt := Some(now)));
      AddPairKeepsContacts(contacts, users, a, b, now);
      requests := requests[requestId := req.(status := Accepted, acceptedAt := Some(now))];
      contacts := contacts[(a, b) := now][(b, a) := now];
      o := Done;
    }

    /** DeclineRequest marks a pending request to the caller 'declined'; the
        row is kept. */
    method DeclineRequest(requestId: RequestId, userId: UserId) returns (o: Outcome)
      requires Valid()
      modifies this`requests
      ensures Valid()
      ensures if requestId in old(requests) && old(requests)[requestId].recipientId == userId &&
                 old(requests)[requestId].status == Pending then
          o == Done && requests == old(requests)[requestId := old(requests)[requestId].(status := Declined)]
        else
          o == Fail(ErrNotFound) && requests == old(requests)
    {
      if requestId in requests && requests[requestId].recipientId == userId &&
         requests[requestId].status == Pending {
        RestatusKeepsRequests(requests, users, requestId, requests[requestId].(status := Declined));
        requests := requests[requestId := requests[requestId].(status := Declined)];
        o := Done;
      } else {
        o := Fail(ErrNotFound);
      }
    }

    /** CancelRequest deletes a pending request sent by the caller. */
    method CancelRequest(requestId: RequestId, userId: UserId) returns (o: Outcome)
      requires Valid()
      modifies this`requests
      ensures Valid()
      ensures if requestId in old(requests) && old(requests)[requestId].requesterId == userId &&
                 old(requests)[requestId].status == Pending then
          o == Done && requests == old(requests) - {requestId}
        else
          o == Fail(ErrNotFound) && requests == old(requests)
    {
      if requestId in requests && requests[requestId].requesterId == userId &&
         requests[requestId].status == Pending {
        requests := requests - {requestId};
        o := Done;
      } else {
        o := Fail(ErrNotFound);
      }
    }

    /** CheckExistingRequest: a pending request between the pair, either way;
        accepted and declined rows do not count. */
    method CheckExistingRequest(requesterId: UserId, recipientId: UserId) returns (found: bool)
      ensures found <==> PendingBetween(requesterId, recipientId)
      ensures found <==> PendingBetween(recipientId, requesterId)
    {
      found := PendingBetween(requesterId, recipientId);
    }

    /** AreContacts looks up one direction; by the mirror invariant the answer
        is the same in both argument orders. */
    method AreContacts(userId: UserId, otherId: UserId) returns (yes: bool)
      requires Valid()
      ensures yes <==> (userId, otherId) in contacts
      ensures yes <==> (otherId, userId) in contacts
    {
      yes := (userId, otherId) in contacts;
    }

    // ---------------------------------------------------------------
    // deviceRepo

    /** Create fills an empty id or token and a zero creation time; lastSeen
        is the creation time. The stored row is not revoked (the INSERT does
        not write revoked_at), and the device returned is that row, with
        revokedAt None; the Go code instead leaves the caller's RevokedAt as
        it was passed. Constraint failures are not mapped and surface as
        ErrDriver. */
    method CreateDevice(d: Device, freshId: DeviceId, freshToken: Token, now: Time)
      returns (r: Result<Device>)
      requires Valid()
      modifies this`devices
      ensures Valid()
      ensures var created := if d.createdAt == ZeroTime then now else d.createdAt;
        var row := d.(id := if d.id == "" then freshId else d.id,
                      token := if d.token == "" then freshToken else d.token,
                      createdAt := created, lastSeen := created, revokedAt := None);
        if row.id in old(devices) || row.userId !in users ||
           (exists k :: k in old(devices) && old(devices)[k].token == row.token)
        then r == Err(ErrDriver) && devices == old(devices)
        else r == Ok(row) && devices == old(devices)[row.id := row]
    {
      var created := if d.createdAt == ZeroTime then now else d.createdAt;
      var row := d.(id := if d.id == "" then freshId else d.id,
                    token := if d.token == "" then freshToken else d.token,
                    createdAt := created, lastSeen := created, revokedAt := None);
      if row.id in devices || row.userId !in users ||
         (exists k :: k in devices && devices[k].token == row.token) {
        r := Err(ErrDriver);
        return;
      }
      devices := devices[row.id := row];
      r := Ok(row);
    }

    /** Revoke stamps revokedAt on the caller's device once; a second revoke,
        or a device of another user, is ErrNotFound. */
    method RevokeDevice(deviceId: DeviceId, userId: UserId, now: Time) returns (o: Outcome)
      requires Valid()
      modifies this`devices
      ensures Valid()
      ensures if deviceId in old(devices) && old(devices)[deviceId].userId == userId &&
                 old(devices)[deviceId].revokedAt.None? then
          o == Done && devices == old(devices)[deviceId := old(devices)[deviceId].(revokedAt := Some(now))]
        else
          o == Fail(ErrNotFound) && devices == old(devices)
    {
      if deviceId in devices && devices[deviceId].userId == userId && devices[deviceId].revokedAt.None? {
        devices := devices[deviceId := devices[deviceId].(revokedAt := Some(now))];
        o := Done;
      } else {
        o := Fail(ErrNotFound);
      }
    }

    // ---------------------------------------------------------------
    // locationRepo

    /** GetLocationsForUser: exactly the rows shared TO the user, each once. */
    method GetLocationsForUser(userId: UserId) returns (ls: seq<EncryptedLocation>)
      requires Valid()
      ensures multiset(ls) == multiset(LocationsTo(userId))
      ensures forall l :: l in ls ==>
        l.toUserId == userId && (l.fromUserId, userId) in locations &&
        locations[(l.fromUserId, userId)] == l
    {
      ls := Ordering.Enumerate(LocationsTo(userId));
      assert forall l :: l in ls ==> l in multiset(ls);
    }

    /** SetLocations, one transaction: upserts each entry as the row
        (fromUserId, toUserId), all stamped with the same time, later entries
        overwriting earlier ones. A statement that fails a foreign key rolls
        the whole batch back. */
    method SetLocations(fromUserId: UserId, locs: seq<EncryptedLocation>, now: Time) returns (o: Outcome)
      requires Valid()
      modifies this`locations
      ensures Valid()
      ensures o == Done <==> BatchInsertable(fromUserId, locs)
      ensures o == Done ==> locations == Upserted(old(locations), fromUserId, locs, now)
      ensures o != Done ==> o == Fail(ErrDriver) && locations == old(locations)
    {
      var ok, acc := UpsertBatch(locations, users, fromUserId, locs, now);
      if ok {
        locations := acc;
        o := Done;
      } else {
        o := Fail(ErrDriver);
      }
    }

    method DeleteLocationsFromUser(userId: UserId) returns (o: Outcome)
      requires Valid()
      modifies this`locations
      ensures Valid()
      ensures o == Done
      ensures locations == map k | k in old(locations) && k.0 != userId :: old(locations)[k]
    {
      locations := map k | k in locations && k.0 != userId :: locations[k];
      o := Done;
    }

    /** DeleteLocationsBetween deletes the two rows exchanged by the pair. */
    method DeleteLocationsBetween(userId: UserId, contactId: UserId) returns (o: Outcome)
      requires Valid()
      modifies this`locations
      ensures Valid()
      ensures o == Done
      ensures locations == old(locations) - {(userId, contactId), (contactId, userId)}
    {
      locations := locations - {(userId, contactId), (contactId, userId)};
      o := Done;
    }

    // ---------------------------------------------------------------
    // sessionRepo

    /** Create fills an empty token and a zero creation time. Constraint
        failures (token taken, unknown user or device) surface as ErrDriver. */
    method CreateSession(s: Session, freshToken: Token, now: Time) returns (r: Result<Session>)
      requires Valid()
      modifies this`sessions
      ensures Valid()
      ensures var row := s.(token := if s.token == "" then freshToken else s.token,
                            createdAt := if s.createdAt == ZeroTime then now else s.createdAt);
        if row.token in old(sessions) || row.userId !in users ||
           (row.deviceId != "" && row.deviceId !in devices)
        then r == Err(ErrDriver) && sessions == old(sessions)
        else r == Ok(row) && sessions == old(sessions)[row.token := row]
    {
      var row := s.(token := if s.token == "" then freshToken else s.token,
                    createdAt := if s.createdAt == ZeroTime then now else s.createdAt);
      if row.token in sessions || row.userId !in users || (row.deviceId != "" && row.deviceId !in devices) {
        r := Err(ErrDriver);
        return;
      }
      sessions := sessions[row.token := row];
      r := Ok(row);
    }

    /** GetByToken finds only a session that expires strictly after now. */
    method GetSessionByToken(token: Token, now: Time) returns (r: Result<Session>)
      requires Valid()
      ensures r.Ok? <==> token in sessions && sessions[token].expiresAt > now
      ensures r.Ok? ==> r.value == sessions[token] && r.value.token == token && r.value.userId in users
      ensures r.Err? ==> r.error == ErrNotFound
    {
      if token in sessions && sessions[token].expiresAt > now {
        r := Ok(sessions[token]);
      } else {
        r := Err(ErrNotFound);
      }
    }

    method DeleteSession(token: Token) returns (o: Outcome)
      requires Valid()
      modifies this`sessions
      ensures Valid()
      ensures o == Done && sessions == old(sessions) - {token}
    {
      sessions := sessions - {token};
      o := Done;
    }

    method DeleteSessionsForUser(userId: UserId) returns (o: Outcome)
      requires Valid()
      modifies this`sessions
      ensures Valid()
      ensures o == Done
      ensures sessions == map t | t in old(sessions) && old(sessions)[t].userId != userId :: old(sessions)[t]
    {
      sessions := map t | t in sessions && sessions[t].userId != userId :: sessions[t];
      o := Done;
    }

    /** DeleteExpired removes sessions that expired strictly before now; every
        session GetByToken would still return at now is kept unchanged. */
    method DeleteExpired(now: Time) returns (o: Outcome)
      requires Valid()
      modifies this`sessions
      ensures Valid()
      ensures o == Done
      ensures sessions == map t | t in old(sessions) && old(sessions)[t].expiresAt >= now :: old(sessions)[t]
      ensures forall t :: t in old(sessions) && old(sessions)[t].expiresAt > now ==>
        t in sessions && sessions[t] == old(sessions)[t]
    {
      sessions := map t | t in sessions && sessions[t].expiresAt >= now :: sessions[t];
      o := Done;
    }
  }
}
