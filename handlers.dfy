/** The guard logic of the Go API server: the Authorization header parser,
    the authentication middleware, and the handlers that change contacts,
    requests, locations, user data and sessions. Each handler is a sequence
    of guard clauses over store calls; its reply is a status and an error
    code. */
module Api {
  import opened Store
  import opened Http
  import Strings
  import Sqlite

  // ---------------------------------------------------------------
  // extractToken

  /** The session part of a credential "sessionToken:deviceToken": the text
      before the first ':' when that colon is not the first character,
      otherwise the whole credential. */
  function SessionToken(rest: string): (r: string)
    ensures r == rest <==> ':' !in rest || rest[0] == ':'
    ensures r != rest ==> 0 < |r| < |rest| && rest[|r|] == ':' && r == rest[..|r|] && ':' !in r
  {
    var idx := Strings.Index(rest, ':');
    if idx > 0 then rest[..idx] else rest
  }

  /** extractToken: "" unless the header splits at its first space into a
      scheme equal to "Bearer" ignoring case and a credential; then the
      session part of the credential. */
  function ExtractToken(header: string): (t: string)
    ensures t != "" ==>
      7 + |t| <= |header| && header[6] == ' ' && Strings.EqualFold(header[..6], "Bearer") &&
      t == header[7..7 + |t|]
  {
    if header == "" then ""
    else
      var parts := Strings.SplitN2(header, ' ');
      if |parts| != 2 || !Strings.EqualFold(parts[0], "Bearer") then ""
      else
        var t := SessionToken(parts[1]);
        SixLetterScheme(header, parts[0], parts[1], t);
        t
  }

  /** Where a six-letter scheme and its space end, and the token begins. */
  lemma SixLetterScheme(header: string, scheme: string, rest: string, t: string)
    requires header == scheme + [' '] + rest && Strings.EqualFold(scheme, "Bearer")
    requires t == rest || (|t| < |rest| && t == rest[..|t|])
    ensures 7 + |t| <= |header| && header[6] == ' ' && Strings.EqualFold(header[..6], "Bearer")
    ensures t == header[7..7 + |t|]
  {
    assert header[7..] == rest;
    assert rest == rest[..|rest|];
  }

  /** A Bearer header in any letter case yields the session part of its
      credential, whatever the credential contains (spaces included). */
  lemma {:induction false} ExtractTokenBearer(scheme: string, rest: string)
    requires Strings.EqualFold(scheme, "Bearer")
    ensures ExtractToken(scheme + " " + rest) == SessionToken(rest)
  {
    assert ' ' !in scheme by {
      forall i | 0 <= i < |scheme|
        ensures scheme[i] != ' '
      {
        assert Strings.ToLower(scheme)[i] == Strings.ToLower("Bearer")[i];
        assert Strings.LowerChar(scheme[i]) != ' ';
      }
    }
    Strings.SplitN2Join(scheme, ' ', rest);
  }

  /** A non-empty token comes only from a header "<scheme> <credential>"
      whose scheme, before the first space, folds to "Bearer". */
  lemma {:induction false} ExtractTokenOnlyBearer(header: string)
    requires ExtractToken(header) != ""
    ensures ' ' in header
    ensures var k := Strings.Index(header, ' ');
      Strings.EqualFold(header[..k], "Bearer") &&
      ExtractToken(header) == SessionToken(header[k + 1..])
  {
    var parts := Strings.SplitN2(header, ' ');
    var k := Strings.Index(header, ' ');
    Strings.IndexOfJoin(parts[0], ' ', parts[1]);
    assert header[..k] == parts[0];
    assert header[k + 1..] == parts[1];
  }

  /** A header with any other scheme, or with no space at all, yields no token. */
  lemma {:induction false} ExtractTokenOtherScheme(scheme: string, rest: string)
    requires ' ' !in scheme && !Strings.EqualFold(scheme, "Bearer")
    ensures ExtractToken(scheme + " " + rest) == ""
    ensures ExtractToken(scheme) == ""
  {
    Strings.SplitN2Join(scheme, ' ', rest);
  }

  // ---------------------------------------------------------------
  // AuthMiddleware

  /** The paths served without authentication: health and Google login. */
  predicate IsPublicPath(path: string) {
    path == "/api/health" || path == "/health" || path == "/api/auth/google" || path == "/auth/google"
  }

  datatype AuthOutcome =
    | Public
    | Authenticated(session: Session)
    | Denied(reply: Reply)

  /** The identity a verified Google ID token asserts. */
  datatype GoogleClaims = GoogleClaims(sub: string, email: string, name: string)

  /** One location of a share request: the recipient and the ciphertext. */
  datatype ShareEntry = ShareEntry(toUserId: UserId, blob: string)

  /** The store rows a share request becomes; the sender and the time are
      filled in by SetLocations. */
  function ToStoreLocations(entries: seq<ShareEntry>): (r: seq<EncryptedLocation>)
    ensures |r| == |entries|
    ensures forall i :: 0 <= i < |r| ==>
      r[i].toUserId == entries[i].toUserId && r[i].blob == entries[i].blob
  {
    seq(|entries|, i requires 0 <= i < |entries| =>
      EncryptedLocation("", entries[i].toUserId, entries[i].blob, ZeroTime))
  }

  /** The second loop of ShareLocations: one store row per entry, in order. */
  method ConvertEntries(entries: seq<ShareEntry>) returns (locs: seq<EncryptedLocation>)
    ensures locs == ToStoreLocations(entries)
  {
    locs := [];
    var i := 0;
    while i < |entries|
      invariant 0 <= i <= |entries|
      invariant locs == ToStoreLocations(entries[..i])
    {
      locs := locs + [EncryptedLocation("", entries[i].toUserId, entries[i].blob, ZeroTime)];
      i := i + 1;
    }
    assert entries[..i] == entries;
  }

  /** The answer to a successful login. */
  datatype Login = Login(token: Token, user: User, isNewUser: bool, hasUserData: bool)

  class Server {
    const store: Sqlite.SqliteStore
    const sessionDuration: Time

    constructor (s: Sqlite.SqliteStore, duration: Time)
      ensures store == s && sessionDuration == duration
    {
      store := s;
      sessionDuration := duration;
    }

    /** AuthMiddleware: public paths pass untouched; any other path needs a
        token naming a live session, and is otherwise answered 401. */
    method Authenticate(path: string, header: string, now: Time) returns (a: AuthOutcome)
      requires store.Valid()
      ensures IsPublicPath(path) ==> a == Public
      ensures !IsPublicPath(path) ==>
        var t := ExtractToken(header);
        (a.Authenticated? <==> t != "" && t in store.sessions && store.sessions[t].expiresAt > now) &&
        (a.Authenticated? ==> a.session == store.sessions[t] && a.session.userId in store.users) &&
        (!a.Authenticated? ==> a == Denied(Reply(Unauthorized401, "unauthorized")))
    {
      if IsPublicPath(path) {
        return Public;
      }
      var token := ExtractToken(header);
      if token == "" {
        return Denied(Reply(Unauthorized401, "unauthorized"));
      }
      var r := store.GetSessionByToken(token, now);
      match r
      case Ok(s) => a := Authenticated(s);
      case Err(e) =>
        a := Denied(if e == ErrNotFound then Reply(Unauthorized401, "unauthorized")
                    else Reply(Internal500, "internal_error"));
    }

    /** The find-or-link-or-create step of LoginWithGoogle: the user of a
        known Google id; else the user with the claimed email, now linked to
        the Google id; else a new user, the only case reported as new. */
    method FindOrCreateUser(c: GoogleClaims, freshUserId: UserId, now: Time)
      returns (r: Result<User>, isNewUser: bool)
      requires store.Valid()
      modifies store`users
      ensures store.Valid()
      ensures r.Ok? ==> r.value.id in store.users && r.value.googleId == c.sub
      ensures isNewUser ==> r.Ok?
      ensures c.sub != "" && old(store.GoogleIdTaken(c.sub)) ==>
        r.Ok? && !isNewUser && store.users == old(store.users) &&
        r.value.id in old(store.users) && old(store.users)[r.value.id] == r.value
      ensures !(c.sub != "" && old(store.GoogleIdTaken(c.sub))) && old(store.EmailTaken(Strings.ToLower(c.email))) ==>
        var u := old(store.UserWithEmail(Strings.ToLower(c.email)));
        r == Ok(u.(googleId := c.sub)) && !isNewUser &&
        store.users == old(store.users)[u.id := u.(googleId := c.sub)]
      ensures !(c.sub != "" && old(store.GoogleIdTaken(c.sub))) && !old(store.EmailTaken(Strings.ToLower(c.email))) ==>
        var u := User(freshUserId, c.email, c.sub, c.name, "", now);
        if freshUserId in old(store.users) then
          r == Err(ErrDuplicateKey) && !isNewUser && store.users == old(store.users)
        else
          r == Ok(u) && isNewUser && store.users == old(store.users)[freshUserId := u.(email := Strings.ToLower(c.email))]
    {
      isNewUser := false;
      var byGoogle := store.GetUserByGoogleID(c.sub);
      if byGoogle.Ok? {
        return byGoogle, false;
      } else if byGoogle.error != ErrNotFound {
        return byGoogle, false;
      }
      var byEmail := store.GetUserByEmail(c.email);
      if byEmail.Err? && byEmail.error == ErrNotFound {
        r := store.CreateUser(User("", c.email, c.sub, c.name, "", ZeroTime), freshUserId, now);
        isNewUser := r.Ok?;
      } else if byEmail.Err? {
        r := byEmail;
      } else {
        var user := byEmail.value.(googleId := c.sub);
        Strings.ToLowerOfLower(user.email);
        var _ := store.UpdateUser(user);
        r := Ok(user);
      }
    }

    /** LoginWithGoogle: 401 without verified claims; otherwise the user
        found, linked or created, and a fresh session for it. */
    method LoginWithGoogle(claims: Option<GoogleClaims>, freshUserId: UserId, freshToken: Token, now: Time)
      returns (reply: Reply, login: Option<Login>)
      requires store.Valid()
      modifies store`users, store`sessions
      ensures store.Valid()
      ensures claims.None? ==>
        reply == Reply(Unauthorized401, "invalid_token") && login == None &&
        store.users == old(store.users) && store.sessions == old(store.sessions)
      ensures login.Some? <==> reply.status == Ok200
      ensures reply.status == Ok200 ==>
        var l := login.value;
        l.token == freshToken && l.user.id in store.users && l.user.googleId == claims.value.sub &&
        store.sessions == old(store.sessions)[freshToken := Session(freshToken, l.user.id, "", now, now + sessionDuration)] &&
        (l.hasUserData <==> l.user.id in store.userData)
      ensures claims.Some? && reply.status != Ok200 ==>
        reply == Reply(Internal500, "internal_error") && store.sessions == old(store.sessions)
      ensures claims.Some? && claims.value.sub != "" && old(store.GoogleIdTaken(claims.value.sub)) ==>
        store.users == old(store.users) &&
        (reply.status == Ok200 <==> freshToken !in old(store.sessions)) &&
        (login.Some? ==>
           !login.value.isNewUser && login.value.user.id in old(store.users) &&
           old(store.users)[login.value.user.id] == login.value.user)
      ensures (claims.Some? && !(claims.value.sub != "" && old(store.GoogleIdTaken(claims.value.sub))) &&
               old(store.EmailTaken(Strings.ToLower(claims.value.email)))) ==>
        var u := old(store.UserWithEmail(Strings.ToLower(claims.value.email))).(googleId := claims.value.sub);
        store.users == old(store.users)[u.id := u] &&
        (reply.status == Ok200 <==> freshToken !in old(store.sessions)) &&
        (login.Some? ==> !login.value.isNewUser && login.value.user == u)
      ensures (claims.Some? && !(claims.value.sub != "" && old(store.GoogleIdTaken(claims.value.sub))) &&
               !old(store.EmailTaken(Strings.ToLower(claims.value.email)))) ==>
        var c := claims.value;
        var u := User(freshUserId, c.email, c.sub, c.name, "", now);
        if freshUserId in old(store.users) then
          reply == Reply(Internal500, "internal_error") && login == None && store.users == old(store.users)
        else
          store.users == old(store.users)[freshUserId := u.(email := Strings.ToLower(c.email))] &&
          (reply.status == Ok200 <==> freshToken !in old(store.sessions)) &&
          (login.Some? ==> login.value.isNewUser && login.value.user == u)
    {
      if claims.None? {
        return Reply(Unauthorized401, "invalid_token"), None;
      }
      var found, isNewUser := FindOrCreateUser(claims.value, freshUserId, now);
      if found.Err? {
        return Reply(Internal500, "internal_error"), None;
      }
      reply, login := StartSession(found.value, isNewUser, freshToken, now);
    }

    /** The tail of LoginWithGoogle: a session for the user that expires one
        session duration from now, and the login answer that reports whether
        the user has stored data. */
    method StartSession(user: User, isNewUser: bool, freshToken: Token, now: Time)
      returns (reply: Reply, login: Option<Login>)
      requires store.Valid() && user.id in store.users
      modifies store`sessions
      ensures store.Valid()
      ensures login.Some? <==> reply.status == Ok200
      ensures if freshToken in old(store.sessions) then
          reply == Reply(Internal500, "internal_error") && store.sessions == old(store.sessions)
        else
          reply == Reply(Ok200, "") &&
          login == Some(Login(freshToken, user, isNewUser, user.id in store.userData)) &&
          store.sessions == old(store.sessions)[freshToken := Session(freshToken, user.id, "", now, now + sessionDuration)]
    {
      var session := store.CreateSession(Session("", user.id, "", ZeroTime, now + sessionDuration), freshToken, now);
      if session.Err? {
        return Reply(Internal500, "internal_error"), None;
      }
      assert session.value == Session(freshToken, user.id, "", now, now + sessionDuration);
      var data := store.GetUserData(user.id);
      reply := Reply(Ok200, "");
      login := Some(Login(session.value.token, user, isNewUser, !(data.Err? && data.error == ErrNotFound)));
    }

    /** SetUserData: a version conflict is 409 with the version now stored,
        or 0 when there is none; success is 200 with the new version. */
    method SetUserData(userId: UserId, blob: string, version: int, now: Time)
      returns (reply: Reply, currentVersion: int, data: Option<UserData>)
      requires store.Valid()
      modifies store`userData
      ensures store.Valid()
      ensures var stored := old(store.userData);
        var conflict := if version == 0 then userId in stored
                        else userId !in stored || stored[userId].version != version;
        if conflict then
          reply == Reply(Conflict409, "version_conflict") && data == None &&
          currentVersion == (if userId in stored then stored[userId].version else 0) &&
          store.userData == stored
        else if version == 0 && userId !in store.users then
          reply == Reply(Internal500, "internal_error") && data == None && store.userData == stored
        else
          reply == Reply(Ok200, "") && data == Some(UserData(version + 1, now, blob)) &&
          store.userData == stored[userId := data.value]
    {
      currentVersion := 0;
      var r := store.SetUserData(userId, blob, version, now);
      match r
      case Ok(d) =>
        reply, data := Reply(Ok200, ""), Some(d);
      case Err(e) =>
        data := None;
        if e == ErrVersionConflict {
          var current := store.GetUserData(userId);
          currentVersion := if current.Ok? then current.value.version else 0;
          reply := Reply(Conflict409, "version_conflict");
        } else {
          reply := Reply(Internal500, "internal_error");
        }
    }

    /** RemoveContact: 404 and no change unless the two are contacts; then
        the contact rows and the locations exchanged, both ways, are gone. */
    method RemoveContact(userId: UserId, contactId: UserId) returns (reply: Reply)
      requires store.Valid()
      modifies store`contacts, store`locations
      ensures store.Valid()
      ensures (userId, contactId) !in old(store.contacts) ==>
        reply == Reply(NotFound404, "not_found") &&
        store.contacts == old(store.contacts) && store.locations == old(store.locations)
      ensures (userId, contactId) in old(store.contacts) ==>
        reply == Reply(NoContent204, "") &&
        store.contacts == old(store.contacts) - {(userId, contactId), (contactId, userId)} &&
        store.locations == old(store.locations) - {(userId, contactId), (contactId, userId)}
    {
      var are := store.AreContacts(userId, contactId);
      if !are {
        return Reply(NotFound404, "not_found");
      }
      var o := store.RemoveContact(userId, contactId);
      if o.Fail? {
        return Reply(Internal500, "internal_error");
      }
      var _ := store.DeleteLocationsBetween(userId, contactId);
      reply := Reply(NoContent204, "");
    }

    /** SendContactRequest, guard by guard: unknown email 404; oneself 400;
        already contacts 409; a pending request either way 409; otherwise the
        request is created (201), or the store refuses it (500) because a row
        for the pair survives from an earlier request in another status. */
    method SendContactRequest(userId: UserId, email: string, freshId: RequestId, now: Time)
      returns (reply: Reply, created: Option<ContactRequest>)
      requires store.Valid()
      modifies store`requests
      ensures store.Valid()
      ensures var e := Strings.ToLower(email);
        if !store.EmailTaken(e) then reply == Reply(NotFound404, "user_not_found")
        else
          var rid := store.UserWithEmail(e).id;
          if rid == userId then reply == Reply(BadRequest400, "invalid_request")
          else if (userId, rid) in store.contacts then reply == Reply(Conflict409, "already_contacts")
          else if old(store.PendingBetween(userId, rid)) then reply == Reply(Conflict409, "request_exists")
          else if freshId in old(store.requests) || old(store.HasPair(userId, rid)) || userId !in store.users
          then reply == Reply(Internal500, "internal_error")
          else reply == Reply(Created201, "") &&
               created == Some(ContactRequest(freshId, userId, rid, Pending, now, None))
      ensures reply.status == Created201 ==> store.requests == old(store.requests)[freshId := created.value]
      ensures reply.status != Created201 ==> store.requests == old(store.requests) && created == None
    {
      created := None;
      var recipient := store.GetUserByEmail(email);
      if recipient.Err? {
        return (if recipient.error == ErrNotFound then Reply(NotFound404, "user_not_found")
                else Reply(Internal500, "internal_error")), None;
      }
      var rid := recipient.value.id;
      if rid == userId {
        return Reply(BadRequest400, "invalid_request"), None;
      }
      var are := store.AreContacts(userId, rid);
      if are {
        return Reply(Conflict409, "already_contacts"), None;
      }
      var pending := store.CheckExistingRequest(userId, rid);
      if pending {
        return Reply(Conflict409, "request_exists"), None;
      }
      var r := store.CreateRequest(userId, rid, freshId, now);
      if r.Err? {
        return Reply(Internal500, "internal_error"), None;
      }
      reply, created := Reply(Created201, ""), Some(r.value);
    }

    /** AcceptContactRequest: 404 and no change for a missing request, one
        addressed to someone else, or one no longer pending; otherwise both
        become contacts and the answer is the requester as a contact. */
    method AcceptContactRequest(userId: UserId, requestId: RequestId, now: Time)
      returns (reply: Reply, contact: Option<Contact>)
      requires store.Valid()
      modifies store`requests, store`contacts
      ensures store.Valid()
      ensures requestId !in old(store.requests) || old(store.requests)[requestId].recipientId != userId ||
              old(store.requests)[requestId].status != Pending ==>
        reply == Reply(NotFound404, "not_found") && contact == None &&
        store.requests == old(store.requests) && store.contacts == old(store.contacts)
      ensures requestId in old(store.requests) && old(store.requests)[requestId].recipientId == userId &&
              old(store.requests)[requestId].status == Pending ==>
        var req := old(store.requests)[requestId];
        var a := req.requesterId;
        if a == userId || (a, userId) in old(store.contacts) then
          reply == Reply(Internal500, "internal_error") && contact == None &&
          store.requests == old(store.requests) && store.contacts == old(store.contacts)
        else
          reply == Reply(Ok200, "") &&
          contact == Some(Contact(userId, a, store.users[a].name, store.users[a].email, store.users[a].publicKey, now)) &&
          store.requests == old(store.requests)[requestId := req.(status := Accepted, acceptedAt := Some(now))] &&
          store.contacts == old(store.contacts)[(a, userId) := now][(userId, a) := now]
      ensures reply.status == Ok200 ==>
        (userId, contact.value.contactId) in store.contacts && (contact.value.contactId, userId) in store.contacts
    {
      contact := None;
      var request := store.GetRequest(requestId);
      if request.Err? {
        return (if request.error == ErrNotFound then Reply(NotFound404, "not_found")
                else Reply(Internal500, "internal_error")), None;
      }
      if request.value.recipientId != userId {
        return Reply(NotFound404, "not_found"), None;
      }
      var o := store.AcceptRequest(requestId, userId, now);
      if o.Fail? {
        return (if o.error == ErrNotFound then Reply(NotFound404, "not_found")
                else Reply(Internal500, "internal_error")), None;
      }
      var requester := store.GetUserByID(request.value.requesterId);
      if requester.Err? {
        return Reply(Internal500, "internal_error"), None;
      }
      var u := requester.value;
      reply, contact := Reply(Ok200, ""), Some(Contact(userId, u.id, u.name, u.email, u.publicKey, now));
    }

    /** DeclineContactRequest: 204 when a pending request to the caller is
        declined, 404 with no change otherwise. */
    method DeclineContactRequest(userId: UserId, requestId: RequestId) returns (reply: Reply)
      requires store.Valid()
      modifies store`requests
      ensures store.Valid()
      ensures if requestId in old(store.requests) && old(store.requests)[requestId].recipientId == userId &&
                 old(store.requests)[requestId].status == Pending then
          reply == Reply(NoContent204, "") &&
          store.requests == old(store.requests)[requestId := old(store.requests)[requestId].(status := Declined)]
        else
          reply == Reply(NotFound404, "not_found") && store.requests == old(store.requests)
    {
      var o := store.DeclineRequest(requestId, userId);
      if o.Fail? {
        return if o.error == ErrNotFound then Reply(NotFound404, "not_found") else Reply(Internal500, "internal_error");
      }
      reply := Reply(NoContent204, "");
    }

    /** CancelContactRequest: 204 when a pending request from the caller is
        deleted, 404 with no change otherwise. */
    method CancelContactRequest(userId: UserId, requestId: RequestId) returns (reply: Reply)
      requires store.Valid()
      modifies store`requests
      ensures store.Valid()
      ensures if requestId in old(store.requests) && old(store.requests)[requestId].requesterId == userId &&
                 old(store.requests)[requestId].status == Pending then
          reply == Reply(NoContent204, "") && store.requests == old(store.requests) - {requestId}
        else
          reply == Reply(NotFound404, "not_found") && store.requests == old(store.requests)
    {
      var o := store.CancelRequest(requestId, userId);
      if o.Fail? {
        return if o.error == ErrNotFound then Reply(NotFound404, "not_found") else Reply(Internal500, "internal_error");
      }
      reply := Reply(NoContent204, "");
    }

    /** The first loop of ShareLocations: every recipient is a contact of
        the sender. */
    method CheckRecipients(userId: UserId, entries: seq<ShareEntry>) returns (ok: bool)
      requires store.Valid()
      ensures ok <==> forall i :: 0 <= i < |entries| ==> (userId, entries[i].toUserId) in store.contacts
    {
      var i := 0;
      while i < |entries|
        invariant 0 <= i <= |entries|
        invariant forall j :: 0 <= j < i ==> (userId, entries[j].toUserId) in store.contacts
      {
        var are := store.AreContacts(userId, entries[i].toUserId);
        if !are {
          return false;
        }
        i := i + 1;
      }
      ok := true;
    }

    /** ShareLocations is all or nothing: 400 and nothing stored when any
        recipient is not a contact; otherwise every entry is upserted, which
        the store cannot refuse since contacts are existing users. */
    method ShareLocations(userId: UserId, entries: seq<ShareEntry>, now: Time) returns (reply: Reply)
      requires store.Valid()
      modifies store`locations
      ensures store.Valid()
      ensures (exists i :: 0 <= i < |entries| && (userId, entries[i].toUserId) !in store.contacts) ==>
        reply == Reply(BadRequest400, "invalid_recipient") && store.locations == old(store.locations)
      ensures (forall i :: 0 <= i < |entries| ==> (userId, entries[i].toUserId) in store.contacts) ==>
        reply == Reply(NoContent204, "") &&
        store.locations == Sqlite.Upserted(old(store.locations), userId, ToStoreLocations(entries), now)
    {
      var ok := CheckRecipients(userId, entries);
      if !ok {
        return Reply(BadRequest400, "invalid_recipient");
      }
      var locs := ConvertEntries(entries);
      assert store.BatchInsertable(userId, locs) by {
        if locs != [] {
          assert (userId, entries[0].toUserId) in store.contacts;
        }
        forall i | 0 <= i < |locs|
          ensures locs[i].toUserId in store.users
        {
          assert (userId, entries[i].toUserId) in store.contacts;
        }
      }
      var o := store.SetLocations(userId, locs, now);
      if o.Fail? {
        return Reply(Internal500, "internal_error");
      }
      reply := Reply(NoContent204, "");
    }
  }
}
