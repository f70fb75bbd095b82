/** The early Python prototype server: a fixed table of test users with
    bearer tokens, a fixed contact list per user, and one location row per
    user holding an opaque payload. Moments are integer seconds. */
module App {
  import opened Store
  import opened Http

  /** LOCATION_EXPIRY_MINUTES: a location older than this is stale. */
  const LocationExpiryMinutes: int := 30
  const ExpirySeconds: int := LocationExpiryMinutes * 60

  /** One entry of TEST_USERS. */
  datatype TestUser = TestUser(id: string, name: string, token: string)

  /** A row of the locations table; updated_at may be NULL. */
  datatype Row = Row(payload: string, updatedAt: Option<Time>)

  /** The answer of get_contact_location. */
  datatype LocationView = LocationView(payload: string, updatedAt: Option<Time>, stale: bool)

  /** A contact as get_contacts lists it. */
  datatype Summary = Summary(id: string, name: string)

  /** A contact as get_all_contact_locations lists it; `stale` is Python's
      `updated_at and updated_at < expiry`, so it is None when updated_at is. */
  datatype BulkView = BulkView(payload: string, updatedAt: Option<Time>, stale: Option<bool>)
  datatype ContactLocation = ContactLocation(id: string, name: string, location: Option<BulkView>)

  datatype AuthResult = Authorized(user: TestUser) | Rejected(reply: Reply)

  /** A dictionary's keys are distinct. */
  predicate DistinctKeys(users: seq<(string, TestUser)>) {
    forall i, j :: 0 <= i < j < |users| ==> users[i].0 != users[j].0
  }

  predicate HasKey(users: seq<(string, TestUser)>, key: string) {
    exists i :: 0 <= i < |users| && users[i].0 == key
  }

  /** TEST_USERS[key]. */
  function Lookup(users: seq<(string, TestUser)>, key: string): (u: TestUser)
    requires HasKey(users, key)
    ensures exists i :: 0 <= i < |users| && users[i] == (key, u)
  {
    if users[0].0 == key then users[0].1
    else
      assert HasKey(users[1..], key) by {
        var i :| 0 <= i < |users| && users[i].0 == key;
        assert users[1..][i - 1] == users[i];
      }
      var u := Lookup(users[1..], key);
      ghost var i :| 0 <= i < |users[1..]| && users[1..][i] == (key, u);
      assert users[i + 1] == (key, u);
      u
  }

  /** The ids of a contact list that TEST_USERS knows, in list order, each
      as often as it occurs. */
  function Known(users: seq<(string, TestUser)>, ids: seq<string>): (r: seq<string>)
    ensures |r| <= |ids|
    ensures forall x :: x in r ==> x in ids && HasKey(users, x)
  {
    if ids == [] then []
    else (if HasKey(users, ids[0]) then [ids[0]] else []) + Known(users, ids[1..])
  }

  /** The filter distributes over concatenation: it keeps the list order. */
  lemma {:induction false} KnownAppend(users: seq<(string, TestUser)>, a: seq<string>, b: seq<string>)
    ensures Known(users, a + b) == Known(users, a) + Known(users, b)
  {
    if a == [] {
      assert a + b == b;
    } else {
      assert (a + b)[0] == a[0];
      assert (a + b)[1..] == a[1..] + b;
      KnownAppend(users, a[1..], b);
    }
  }

  /** Every id of the list that TEST_USERS knows is kept as often as it
      occurs, and no other id. */
  lemma {:induction false} KnownCount(users: seq<(string, TestUser)>, ids: seq<string>, x: string)
    ensures multiset(Known(users, ids))[x] == if HasKey(users, x) then multiset(ids)[x] else 0
  {
    if ids != [] {
      KnownCount(users, ids[1..], x);
      assert ids == [ids[0]] + ids[1..];
    }
  }

  /** The 30-minute rule: a row is stale when it has a time earlier than
      the cutoff; a missing time is never stale. */
  predicate IsStale(updatedAt: Option<Time>, now: Time): (r: bool)
    ensures r ==> updatedAt.Some?
    ensures updatedAt.Some? && updatedAt.value >= now ==> !r
    ensures updatedAt.Some? ==> (r <==> now - updatedAt.value > LocationExpiryMinutes * 60)
  {
    updatedAt.Some? && updatedAt.value < now - ExpirySeconds
  }

  /** Staleness only grows with time, and a location written now is fresh
      for exactly 30 minutes. */
  lemma StaleMonotone(updatedAt: Option<Time>, now: Time, later: Time)
    requires now <= later && IsStale(updatedAt, now)
    ensures IsStale(updatedAt, later)
  {
  }

  lemma FreshForThirtyMinutes(t: Time, now: Time)
    ensures !IsStale(Some(t), now) <==> now <= t + 1800
  {
  }

  function BulkStale(updatedAt: Option<Time>, cutoff: Time): (s: Option<bool>)
    ensures s.None? <==> updatedAt.None?
    ensures s.Some? ==> (s.value <==> IsStale(updatedAt, cutoff + ExpirySeconds))
  {
    if updatedAt.None? then None else Some(updatedAt.value < cutoff)
  }

  class LocationServer {
    /** TEST_USERS, in dictionary order. */
    const testUsers: seq<(string, TestUser)>
    /** TEST_CONTACTS. */
    const testContacts: map<string, seq<string>>
    /** The locations table, keyed by user_id. */
    var rows: map<string, Row>

    constructor (users: seq<(string, TestUser)>, contacts: map<string, seq<string>>)
      requires DistinctKeys(users)
      ensures testUsers == users && testContacts == contacts && rows == map[]
    {
      testUsers := users;
      testContacts := contacts;
      rows := map[];
    }

    /** TEST_CONTACTS.get(user['id'], []). */
    function ContactIds(user: TestUser): (ids: seq<string>)
      ensures user.id !in testContacts ==> ids == []
    {
      if user.id in testContacts then testContacts[user.id] else []
    }

    /** get_current_user: the header must start with exactly "Bearer "; the
        rest must equal some user's token, and the first such user in
        TEST_USERS order is the one returned. */
    method GetCurrentUser(header: string) returns (u: Option<TestUser>)
      ensures u.Some? ==> |header| >= 7 && header[..7] == "Bearer "
      ensures u.Some? <==>
        (|header| >= 7 && header[..7] == "Bearer " &&
         exists i :: 0 <= i < |testUsers| && testUsers[i].1.token == header[7..])
      ensures u.Some? ==>
        exists i :: (0 <= i < |testUsers| && testUsers[i].1 == u.value && u.value.token == header[7..] &&
                     forall j :: 0 <= j < i ==> testUsers[j].1.token != header[7..])
    {
      if |header| < 7 || header[..7] != "Bearer " {
        return None;
      }
      var token := header[7..];
      var i := 0;
      while i < |testUsers|
        invariant 0 <= i <= |testUsers|
        invariant forall j :: 0 <= j < i ==> testUsers[j].1.token != token
      {
        if testUsers[i].1.token == token {
          return Some(testUsers[i].1);
        }
        i := i + 1;
      }
      u := None;
    }

    /** require_auth: 401 unless get_current_user finds a user. */
    method RequireAuth(header: string) returns (a: AuthResult)
      ensures a.Rejected? ==> a.reply == Reply(Unauthorized401, "Unauthorized")
      ensures a.Authorized? <==>
        (|header| >= 7 && header[..7] == "Bearer " &&
         exists i :: 0 <= i < |testUsers| && testUsers[i].1.token == header[7..])
      ensures a.Authorized? ==>
        a.user.token == header[7..] && exists i :: 0 <= i < |testUsers| && testUsers[i].1 == a.user
    {
      var u := GetCurrentUser(header);
      if u.None? {
        return Rejected(Reply(Unauthorized401, "Unauthorized"));
      }
      a := Authorized(u.value);
    }

    /** publish_location: 400 without a body or without 'payload';
        otherwise the caller's single row is inserted or overwritten. */
    method PublishLocation(user: TestUser, body: Option<map<string, string>>, now: Time) returns (reply: Reply)
      modifies this`rows
      ensures body.None? || "payload" !in body.value ==>
        reply == Reply(BadRequest400, "Missing payload") && rows == old(rows)
      ensures body.Some? && "payload" in body.value ==>
        reply == Reply(Ok200, "") && rows == old(rows)[user.id := Row(body.value["payload"], Some(now))]
    {
      if body.None? || "payload" !in body.value {
        return Reply(BadRequest400, "Missing payload");
      }
      rows := rows[user.id := Row(body.value["payload"], Some(now))];
      reply := Reply(Ok200, "");
    }

    /** get_my_location: the caller's row, or None. */
    method GetMyLocation(user: TestUser) returns (loc: Option<Row>)
      ensures loc.Some? <==> user.id in rows
      ensures loc.Some? ==> loc.value == rows[user.id]
    {
      if user.id in rows {
        loc := Some(rows[user.id]);
      } else {
        loc := None;
      }
    }

    /** get_contacts: the caller's contacts that TEST_USERS knows, in list
        order, each with the id and name of its TEST_USERS entry. */
    method GetContacts(user: TestUser) returns (cs: seq<Summary>)
      ensures var known := Known(testUsers, ContactIds(user));
        |cs| == |known| &&
        forall i :: 0 <= i < |cs| ==>
          cs[i] == Summary(Lookup(testUsers, known[i]).id, Lookup(testUsers, known[i]).name)
    {
      var ids := ContactIds(user);
      cs := [];
      var i := 0;
      while i < |ids|
        invariant 0 <= i <= |ids|
        invariant var known := Known(testUsers, ids[..i]);
          |cs| == |known| &&
          forall k :: 0 <= k < |cs| ==>
            cs[k] == Summary(Lookup(testUsers, known[k]).id, Lookup(testUsers, known[k]).name)
      {
        KnownAppend(testUsers, ids[..i], [ids[i]]);
        assert ids[..i + 1] == ids[..i] + [ids[i]];
        assert Known(testUsers, [ids[i]]) == (if HasKey(testUsers, ids[i]) then [ids[i]] else []) by {
          assert [ids[i]][1..] == [];
        }
        if HasKey(testUsers, ids[i]) {
          var contact := Lookup(testUsers, ids[i]);
          cs := cs + [Summary(contact.id, contact.name)];
        }
        i := i + 1;
      }
      assert ids[..i] == ids;
    }

    /** get_contact_location: 403 unless the id is in the caller's contact
        list, checked before any row is read; otherwise the row, or None,
        with the 30-minute staleness flag. */
    method GetContactLocation(user: TestUser, contactId: string, now: Time)
      returns (reply: Reply, loc: Option<LocationView>)
      ensures contactId !in ContactIds(user) ==> reply == Reply(Forbidden403, "Not a contact") && loc == None
      ensures contactId in ContactIds(user) ==>
        reply == Reply(Ok200, "") &&
        (loc.Some? <==> contactId in rows) &&
        (loc.Some? ==> loc.value == LocationView(rows[contactId].payload, rows[contactId].updatedAt,
                                                 IsStale(rows[contactId].updatedAt, now)))
    {
      var ids := ContactIds(user);
      if contactId !in ids {
        return Reply(Forbidden403, "Not a contact"), None;
      }
      if contactId !in rows {
        return Reply(Ok200, ""), None;
      }
      var row := rows[contactId];
      var stale := false;
      if row.updatedAt.Some? {
        var expiry := now - LocationExpiryMinutes * 60;
        if row.updatedAt.value < expiry {
          stale := true;
        }
      }
      reply, loc := Reply(Ok200, ""), Some(LocationView(row.payload, row.updatedAt, stale));
    }

    /** What get_all_contact_locations lists for one known contact id. */
    function Entry(key: string, cutoff: Time): (e: ContactLocation)
      requires HasKey(testUsers, key)
      reads this`rows
      ensures e.id == Lookup(testUsers, key).id && e.name == Lookup(testUsers, key).name
      ensures e.location.None? <==> key !in rows
      ensures key in rows ==>
        e.location.value == BulkView(rows[key].payload, rows[key].updatedAt, BulkStale(rows[key].updatedAt, cutoff))
    {
      var u := Lookup(testUsers, key);
      if key in rows then
        var row := rows[key];
        ContactLocation(u.id, u.name, Some(BulkView(row.payload, row.updatedAt, BulkStale(row.updatedAt, cutoff))))
      else ContactLocation(u.id, u.name, None)
    }

    /** get_all_contact_locations: [] for no contacts; otherwise one entry
        per known contact id in list order, with None for a contact without
        a row, all judged against one cutoff computed for the request. */
    method GetAllContactLocations(user: TestUser, now: Time) returns (out: seq<ContactLocation>)
      ensures ContactIds(user) == [] ==> out == []
      ensures var known := Known(testUsers, ContactIds(user));
        |out| == |known| &&
        forall i :: 0 <= i < |out| ==> out[i] == Entry(known[i], now - ExpirySeconds)
    {
      var ids := ContactIds(user);
      if ids == [] {
        return [];
      }
      var located := map k | k in rows && k in ids :: rows[k];
      var cutoff := now - LocationExpiryMinutes * 60;
      out := [];
      var i := 0;
      while i < |ids|
        invariant 0 <= i <= |ids|
        invariant var known := Known(testUsers, ids[..i]);
          |out| == |known| && forall k :: 0 <= k < |out| ==> out[k] == Entry(known[k], cutoff)
      {
        KnownAppend(testUsers, ids[..i], [ids[i]]);
        assert ids[..i + 1] == ids[..i] + [ids[i]];
        var contactId := ids[i];
        if HasKey(testUsers, contactId) {
          var contact := Lookup(testUsers, contactId);
          var location: Option<BulkView> := None;
          if contactId in located {
            var row := located[contactId];
            location := Some(BulkView(row.payload, row.updatedAt, BulkStale(row.updatedAt, cutoff)));
          }
          assert ContactLocation(contact.id, contact.name, location) == Entry(contactId, cutoff);
          out := out + [ContactLocation(contact.id, contact.name, location)];
        }
        i := i + 1;
      }
      assert ids[..i] == ids;
    }
  }
}
