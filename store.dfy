/** Entity types, sentinel errors and result wrappers of the storage layer
    (package store). Identifiers are strings, moments are integer seconds. */
module Store {

  type UserId = string
  type RequestId = string
  type DeviceId = string
  type Token = string

  /** A moment in seconds. ZeroTime stands for Go's zero time.Time. */
  type Time = int
  const ZeroTime: Time := 0

  datatype Option<T> = None | Some(value: T)

  /** The three sentinel errors of the store, plus ErrDriver for every other
      database error that an implementation passes back unclassified
      (a constraint that the code does not map to a sentinel). */
  datatype StoreError = ErrNotFound | ErrDuplicateKey | ErrVersionConflict | ErrDriver {
    predicate IsSentinel() {
      !ErrDriver?
    }
  }

  /** The text each sentinel error carries. */
  function ErrorText(e: StoreError): (t: string)
    requires e.IsSentinel()
    ensures t != ""
  {
    match e
    case ErrNotFound => "not found"
    case ErrDuplicateKey => "duplicate key"
    case ErrVersionConflict => "version conflict"
  }

  /** The three sentinel errors are pairwise distinct values with distinct texts. */
  lemma SentinelsDistinct(a: StoreError, b: StoreError)
    requires a.IsSentinel() && b.IsSentinel()
    ensures ErrorText(a) == ErrorText(b) <==> a == b
  {
    if a != b {
      assert ErrorText(a)[0] != ErrorText(b)[0] || |ErrorText(a)| != |ErrorText(b)|;
    }
  }

  /** A value or a store error (Go's `(T, error)` pair). */
  datatype Result<T> = Ok(value: T) | Err(error: StoreError)

  /** Success or a store error (Go's bare `error` return). */
  datatype Outcome = Done | Fail(error: StoreError)

  /** The status column of a contact request. */
  datatype RequestStatus = Pending | Accepted | Declined

  function StatusText(s: RequestStatus): (t: string)
    ensures |t| >= 7
  {
    match s
    case Pending => "pending"
    case Accepted => "accepted"
    case Declined => "declined"
  }

  /** The domain of the status column: the three texts the schema default
      and the accept and decline updates write. The Go code compares the
      column with these literals and never parses it; the model reads it
      back here so that the text and the datatype can be shown to agree. */
  function ParseStatus(t: string): (r: Option<RequestStatus>)
    ensures r.Some? <==> t in {"pending", "accepted", "declined"}
    ensures r.Some? ==> StatusText(r.value) == t
  {
    if t == "pending" then Some(Pending)
    else if t == "accepted" then Some(Accepted)
    else if t == "declined" then Some(Declined)
    else None
  }

  lemma StatusRoundTrip(s: RequestStatus)
    ensures ParseStatus(StatusText(s)) == Some(s)
  {
  }

  /** A registered user; an empty googleId or publicKey is SQL NULL. */
  datatype User = User(
    id: UserId,
    email: string,
    googleId: string,
    name: string,
    publicKey: string,
    createdAt: Time)

  /** The optimistically versioned encrypted blob of a user. */
  datatype UserData = UserData(version: int, updatedAt: Time, blob: string)

  datatype ContactRequest = ContactRequest(
    id: RequestId,
    requesterId: UserId,
    recipientId: UserId,
    status: RequestStatus,
    createdAt: Time,
    acceptedAt: Option<Time>)

  /** A contact row joined with the contact's user row. */
  datatype Contact = Contact(
    userId: UserId,
    contactId: UserId,
    name: string,
    email: string,
    publicKey: string,
    createdAt: Time)

  datatype Device = Device(
    id: DeviceId,
    userId: UserId,
    name: string,
    platform: string,
    token: Token,
    createdAt: Time,
    lastSeen: Time,
    revokedAt: Option<Time>)

  /** A ciphertext that fromUserId shares with toUserId. */
  datatype EncryptedLocation = EncryptedLocation(
    fromUserId: UserId,
    toUserId: UserId,
    blob: string,
    updatedAt: Time)

  /** An authenticated session; an empty deviceId is SQL NULL. */
  datatype Session = Session(
    token: Token,
    userId: UserId,
    deviceId: DeviceId,
    createdAt: Time,
    expiresAt: Time)

  /** A request's acceptance time is present exactly when it was accepted. */
  predicate WellFormedRequest(r: ContactRequest) {
    r.acceptedAt.Some? <==> r.status == Accepted
  }
}
