/** Client sequences over the Go API and its store: what a run of several
    calls guarantees, stated as the contract of a method that makes them. */
module Scenarios {
  import opened Store
  import opened Http
  import Strings
  import Sqlite
  import Api

  /** The user registered under an email, in any letter case. */
  ghost predicate Registered(st: Sqlite.SqliteStore, email: string, id: UserId)
    reads st`users
  {
    st.EmailTaken(Strings.ToLower(email)) && st.UserWithEmail(Strings.ToLower(email)).id == id
  }

  /** A sends a request to B and B accepts it: both are then contacts of
      each other, in both argument orders. */
  method SendThenAccept(server: Api.Server, a: UserId, b: UserId, bEmail: string, freshId: RequestId, now: Time)
    returns (sent: Reply, accepted: Reply)
    requires server.store.Valid()
    requires a in server.store.users && Registered(server.store, bEmail, b) && a != b
    requires (a, b) !in server.store.contacts && !server.store.PendingBetween(a, b)
    requires !server.store.HasPair(a, b) && freshId !in server.store.requests
    modifies server.store`requests, server.store`contacts
    ensures sent.status == Created201 && accepted.status == Ok200
    ensures (a, b) in server.store.contacts && (b, a) in server.store.contacts
    ensures freshId in server.store.requests && server.store.requests[freshId].status == Accepted
  {
    var created;
    sent, created := server.SendContactRequest(a, bEmail, freshId, now);
    var contact;
    accepted, contact := server.AcceptContactRequest(b, freshId, now);
    var yes := server.store.AreContacts(b, a);
    assert yes;
  }

  /** Two users asking each other at once: the second request meets the
      first, still pending, and is refused with 409 request_exists. */
  method CrossedRequests(server: Api.Server, a: UserId, aEmail: string, b: UserId, bEmail: string,
                         id1: RequestId, id2: RequestId, now: Time)
    returns (first: Reply, second: Reply)
    requires server.store.Valid()
    requires Registered(server.store, aEmail, a) && Registered(server.store, bEmail, b) && a != b
    requires (a, b) !in server.store.contacts && !server.store.PendingBetween(a, b)
    requires !server.store.HasPair(a, b) && id1 !in server.store.requests
    modifies server.store`requests
    ensures first == Reply(Created201, "")
    ensures second == Reply(Conflict409, "request_exists")
    ensures server.store.requests == old(server.store.requests)[id1 := ContactRequest(id1, a, b, Pending, now, None)]
  {
    var c1, c2;
    first, c1 := server.SendContactRequest(a, bEmail, id1, now);
    assert server.store.requests[id1].status == Pending;
    second, c2 := server.SendContactRequest(b, aEmail, id2, now);
  }

  /** After B declines A's request, A cannot ask again: the declined row
      still holds the UNIQUE(requester, recipient) slot, so the store
      refuses the insert and the handler answers 500. */
  method ResendAfterDecline(server: Api.Server, a: UserId, b: UserId, bEmail: string,
                            id1: RequestId, id2: RequestId, now: Time)
    returns (sent: Reply, declined: Reply, resent: Reply)
    requires server.store.Valid()
    requires a in server.store.users && Registered(server.store, bEmail, b) && a != b
    requires (a, b) !in server.store.contacts && !server.store.PendingBetween(a, b)
    requires !server.store.HasPair(a, b) && id1 !in server.store.requests
    modifies server.store`requests
    ensures sent.status == Created201 && declined.status == NoContent204
    ensures resent == Reply(Internal500, "internal_error")
  {
    var c1, c2;
    sent, c1 := server.SendContactRequest(a, bEmail, id1, now);
    ghost var pendingRow := ContactRequest(id1, a, b, Pending, now, None);
    ghost var row := pendingRow.(status := Declined);
    declined := server.DeclineContactRequest(b, id1);
    UpdateTwice(old(server.store.requests), id1, pendingRow, row);
    assert server.store.requests == old(server.store.requests)[id1 := row];
    assert server.store.HasPair(a, b) by {
      assert server.store.requests[id1] == row;
    }
    Sqlite.NonPendingKeepsClear(old(server.store.requests), id1, row, a, b);
    resent, c2 := server.SendContactRequest(a, bEmail, id2, now);
  }

  /** A cancelled request leaves no row behind, so A can ask again. */
  method ResendAfterCancel(server: Api.Server, a: UserId, b: UserId, bEmail: string,
                           id1: RequestId, id2: RequestId, now: Time)
    returns (sent: Reply, cancelled: Reply, resent: Reply)
    requires server.store.Valid()
    requires a in server.store.users && Registered(server.store, bEmail, b) && a != b
    requires (a, b) !in server.store.contacts && !server.store.PendingBetween(a, b)
    requires !server.store.HasPair(a, b) && id1 !in server.store.requests && id2 !in server.store.requests
    modifies server.store`requests
    ensures sent.status == Created201 && cancelled.status == NoContent204 && resent.status == Created201
    ensures server.store.requests == old(server.store.requests)[id2 := ContactRequest(id2, a, b, Pending, now, None)]
  {
    var c1, c2;
    sent, c1 := server.SendContactRequest(a, bEmail, id1, now);
    ghost var pendingRow := ContactRequest(id1, a, b, Pending, now, None);
    assert server.store.requests == old(server.store.requests)[id1 := pendingRow];
    cancelled := server.CancelContactRequest(a, id1);
    InsertThenDelete(old(server.store.requests), id1, pendingRow);
    assert server.store.requests == old(server.store.requests);
    assert !server.store.HasPair(a, b) && !server.store.PendingBetween(a, b);
    resent, c2 := server.SendContactRequest(a, bEmail, id2, now);
  }

  lemma UpdateTwice<K, V>(m: map<K, V>, k: K, v: V, w: V)
    ensures m[k := v][k := w] == m[k := w]
  {
  }

  lemma InsertThenDelete<K, V>(m: map<K, V>, k: K, v: V)
    requires k !in m
    ensures m[k := v] - {k} == m
  {
  }

  /** RemoveContact twice: the first removes both directions and answers
      204, the second finds no contact and answers 404. */
  method RemoveTwice(server: Api.Server, a: UserId, b: UserId) returns (first: Reply, second: Reply)
    requires server.store.Valid()
    requires (a, b) in server.store.contacts
    modifies server.store`contacts, server.store`locations
    ensures first == Reply(NoContent204, "") && second == Reply(NotFound404, "not_found")
    ensures (a, b) !in server.store.contacts && (b, a) !in server.store.contacts
    ensures (a, b) !in server.store.locations && (b, a) !in server.store.locations
  {
    first := server.RemoveContact(a, b);
    second := server.RemoveContact(a, b);
  }

  /** Optimistic versioning across two devices: both read version v, the
      first writes v + 1, the second is told 409 with the newer version. */
  method ConcurrentUserDataWrites(server: Api.Server, u: UserId, blob1: string, blob2: string, now: Time)
    returns (firstVersion: int, conflict: Reply, current: int)
    requires server.store.Valid()
    requires u in server.store.userData
    modifies server.store`userData
    ensures firstVersion == old(server.store.userData[u].version) + 1
    ensures conflict == Reply(Conflict409, "version_conflict") && current == firstVersion
    ensures u in server.store.userData && server.store.userData[u] == UserData(firstVersion, now, blob1)
  {
    var v := server.store.userData[u].version;
    var r1, c1, d1 := server.SetUserData(u, blob1, v, now);
    firstVersion := d1.value.version;
    var d2;
    conflict, current, d2 := server.SetUserData(u, blob2, v, now);
  }

  /** Revoking a device is one-shot: the second revoke finds nothing. */
  method RevokeTwice(st: Sqlite.SqliteStore, d: DeviceId, u: UserId, now: Time, later: Time)
    returns (first: Outcome, second: Outcome)
    requires st.Valid()
    requires d in st.devices && st.devices[d].userId == u && st.devices[d].revokedAt.None?
    modifies st`devices
    ensures first == Done && second == Fail(ErrNotFound)
    ensures d in st.devices && st.devices[d].revokedAt == Some(now)
  {
    first := st.RevokeDevice(d, u, now);
    second := st.RevokeDevice(d, u, later);
  }

  /** A session ages out: the middleware admits its token before it
      expires, and at any later time from its expiry on answers 401, both
      before and after DeleteExpired runs at that time; the cleanup keeps
      the row while it expires exactly then and drops it after. */
  method SessionExpiry(server: Api.Server, path: string, token: Token, now: Time, later: Time)
    returns (before: Api.AuthOutcome, lapsed: Api.AuthOutcome, after: Api.AuthOutcome)
    requires server.store.Valid() && !Api.IsPublicPath(path)
    requires token != "" && ':' !in token && token in server.store.sessions
    requires now < server.store.sessions[token].expiresAt <= later
    modifies server.store`sessions
    ensures before.Authenticated? && before.session.token == token
    ensures lapsed == Api.Denied(Reply(Unauthorized401, "unauthorized"))
    ensures after == Api.Denied(Reply(Unauthorized401, "unauthorized"))
    ensures (token in server.store.sessions) == (later == old(server.store.sessions[token].expiresAt))
  {
    var header := "Bearer " + token;
    BearerHeader(token);
    before := server.Authenticate(path, header, now);
    lapsed := server.Authenticate(path, header, later);
    ghost var row := server.store.sessions[token];
    var _ := server.store.DeleteExpired(later);
    assert token in server.store.sessions ==> server.store.sessions[token] == row;
    after := server.Authenticate(path, header, later);
  }

  /** The header a client sends for a session token yields that token. */
  lemma BearerHeader(token: Token)
    requires ':' !in token
    ensures Api.ExtractToken("Bearer " + token) == token
  {
    Api.ExtractTokenBearer("Bearer", token);
    assert "Bearer " + token == "Bearer" + " " + token;
  }

  /** Emails match in any letter case: a user created with one casing is
      found with another, and a second user with the same email in another
      casing is refused. */
  method EmailCaseFolding(st: Sqlite.SqliteStore, u: User, v: User, id1: UserId, id2: UserId, now: Time)
    returns (created: Result<User>, found: Result<User>, duplicate: Result<User>)
    requires st.Valid()
    requires Strings.EqualFold(u.email, v.email)
    requires id1 !in st.users && u.id == "" && u.googleId == "" && !st.EmailTaken(Strings.ToLower(u.email))
    modifies st`users
    ensures created.Ok? && created.value.id == id1
    ensures id1 in st.users && found == Ok(st.users[id1]) && found.value.email == Strings.ToLower(u.email)
    ensures duplicate == Err(ErrDuplicateKey)
  {
    created := st.CreateUser(u, id1, now);
    assert st.users[id1].email == Strings.ToLower(v.email);
    found := st.GetUserByEmail(v.email);
    duplicate := st.CreateUser(v, id2, now);
  }
}
