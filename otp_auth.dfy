/**
  The one-time-passcode login state machine. Two collections are kept: the
  OTP records (a history, appended to by every request and never deleted) and
  the auth users, keyed by normalised e-mail address. `Request` and `Verify`
  state what the two handlers do to that state as functions of the old state;
  the `AuthService` class performs the same steps in place.

  Time is whole seconds; the current time and the random draw are parameters.
  The storage layer stamps a new OTP record's `createdAt` with the request
  time; the newest-first query orders by that stamp.
*/
module OtpAuth {
  import opened Wrappers
  import opened OtpText
  import Schemas

  /** Five minutes, the lifetime of a code. */
  const OtpLifetimeSeconds: int := 300

  const SentMessage: string := "OTP sent to your email"

  datatype OtpRecord = OtpRecord(
    email: string,
    code: string,
    createdAt: Schemas.Timestamp,
    expiresAt: Schemas.Timestamp,
    used: bool,
    updatedAt: Option<Schemas.Timestamp>)

  datatype UserRow = UserRow(
    displayName: Option<string>,
    isVerified: bool,
    lastLogin: Option<Schemas.Timestamp>,
    createdAt: Option<Schemas.Timestamp>,
    updatedAt: Schemas.Timestamp)

  datatype Store = Store(otps: seq<OtpRecord>, users: map<string, UserRow>)

  /** The body of a successful OTP request. */
  datatype Issued = Issued(message: string, devOtp: string, expiresInSeconds: int)

  /** The body of a successful verification. */
  datatype Session = Session(success: bool, token: string, email: string)

  datatype AuthError = DatabaseNotConfigured | InvalidOrExpired

  /** The HTTP status each failure is reported with. */
  function StatusCode(e: AuthError): (status: int)
    ensures e == DatabaseNotConfigured <==> status == 500
    ensures e == InvalidOrExpired <==> status == 400
  {
    match e
    case DatabaseNotConfigured => 500
    case InvalidOrExpired => 400
  }

  // ---------------------------------------------------------------- query

  /** `r` answers the verification query: same address and code, unused, not yet expired. */
  predicate Active(r: OtpRecord, email: string, code: string, now: Schemas.Timestamp)
  {
    r.email == email && r.code == code && !r.used && r.expiresAt >= now
  }

  /** No record answers the verification query. */
  predicate NoneActive(otps: seq<OtpRecord>, email: string, code: string, now: Schemas.Timestamp)
  {
    forall j :: 0 <= j < |otps| ==> !Active(otps[j], email, code, now)
  }

  /**
    Record `j` comes no later than record `k` in the newest-first order: it was
    created earlier, or at the same second and stored no later.
  */
  predicate NoNewer(otps: seq<OtpRecord>, j: nat, k: nat)
    requires j < |otps| && k < |otps|
  {
    otps[j].createdAt < otps[k].createdAt || (otps[j].createdAt == otps[k].createdAt && j <= k)
  }

  /**
    The first record of the query sorted by `createdAt` descending: the index
    of the newest active record, or none when no record is active.
  */
  function FindActive(otps: seq<OtpRecord>, email: string, code: string, now: Schemas.Timestamp): (r: Option<nat>)
    ensures r.None? <==> NoneActive(otps, email, code, now)
    ensures r.Some? ==> r.value < |otps| && Active(otps[r.value], email, code, now)
    ensures r.Some? ==> forall j :: 0 <= j < |otps| && Active(otps[j], email, code, now) ==> NoNewer(otps, j, r.value)
  {
    if otps == [] then None
    else
      var last := |otps| - 1;
      var best := FindActive(otps[..last], email, code, now);
      if !Active(otps[last], email, code, now) then best
      else if best.Some? && otps[best.value].createdAt > otps[last].createdAt then best
      else Some(last)
  }

  // ---------------------------------------------------------------- records

  /** The lightweight row written for an address seen for the first time. */
  function NewUserRow(now: Schemas.Timestamp): UserRow
  {
    UserRow(None, false, None, Some(now), now)
  }

  /**
    The upsert of a successful verification: an existing row keeps its name
    and creation stamp; a missing row is created with only the fields set.
  */
  function VerifiedRow(previous: Option<UserRow>, now: Schemas.Timestamp): (u: UserRow)
    ensures u.isVerified && u.lastLogin == Some(now) && u.updatedAt == now
    ensures previous.Some? ==> u.displayName == previous.value.displayName && u.createdAt == previous.value.createdAt
    ensures previous.None? ==> u.displayName.None? && u.createdAt.None?
  {
    match previous
    case Some(row) => row.(isVerified := true, lastLogin := Some(now), updatedAt := now)
    case None => UserRow(None, true, Some(now), None, now)
  }

  function Lookup(users: map<string, UserRow>, email: string): Option<UserRow>
  {
    if email in users then Some(users[email]) else None
  }

  /** `update_one` on the OTP collection: record `k` becomes used at `now`, no other record changes. */
  function MarkUsed(otps: seq<OtpRecord>, k: nat, now: Schemas.Timestamp): (r: seq<OtpRecord>)
    requires k < |otps|
    ensures |r| == |otps|
    ensures r[k].used && r[k].updatedAt == Some(now)
    ensures r[k] == otps[k].(used := true, updatedAt := Some(now))
    ensures forall j :: 0 <= j < |otps| && j != k ==> r[j] == otps[j]
  {
    otps[k := otps[k].(used := true, updatedAt := Some(now))]
  }

  /**
    `update_one` with upsert on the user collection: the row for `email`
    (created if absent) is verified with `lastLogin = now`; no other row changes.
  */
  function UpsertVerified(users: map<string, UserRow>, email: string, now: Schemas.Timestamp): (r: map<string, UserRow>)
    ensures r.Keys == users.Keys + {email}
    ensures r[email] == VerifiedRow(Lookup(users, email), now)
    ensures r[email].isVerified && r[email].lastLogin == Some(now)
    ensures forall a :: a in users && a != email ==> r[a] == users[a]
  {
    users[email := VerifiedRow(Lookup(users, email), now)]
  }

  // ---------------------------------------------------------------- operations

  /**
    Requesting a code for `email` with random draw `draw` at time `now`:
    one new unused record, expiring five minutes later, is appended and the
    older ones are kept as they are; a user row is added only if the address
    has none; the code is returned with its lifetime.
  */
  function Request(st: Store, email: string, draw: nat, now: Schemas.Timestamp): (r: (Store, Issued))
    requires draw <= MaxDraw
    ensures var (st', out) := r;
      && |st'.otps| == |st.otps| + 1
      && st'.otps[..|st.otps|] == st.otps
      && st'.otps[|st.otps|] == OtpRecord(Normalize(email), out.devOtp, now, now + 300, false, None)
    ensures var (st', out) := r;
      && Normalize(email) in st'.users
      && (Normalize(email) in st.users ==> st'.users == st.users)
      && (Normalize(email) !in st.users ==>
            st'.users == st.users[Normalize(email) := UserRow(None, false, None, Some(now), now)])
    ensures var out := r.1;
      && out.devOtp == FormatCode(draw)
      && |out.devOtp| == 6 && AllDigits(out.devOtp) && DecimalValue(out.devOtp) == draw
      && out.expiresInSeconds == 300
      && out.message == SentMessage
    ensures Schemas.OtpOf(Normalize(email), r.1.devOtp, now + 300, Some(false)).Success?
  {
    var e := Normalize(email);
    var code := FormatCode(draw);
    var rec := OtpRecord(e, code, now, now + OtpLifetimeSeconds, false, None);
    var users := if e in st.users then st.users else st.users[e := NewUserRow(now)];
    (Store(st.otps + [rec], users), Issued(SentMessage, code, OtpLifetimeSeconds))
  }

  /**
    Verifying `code` for `email` at time `now`. With no active record it fails
    with `InvalidOrExpired` and changes nothing. Otherwise exactly the newest
    active record becomes used (stamped `now`), every other record is kept, the
    address's user row is upserted as verified with `lastLogin = now`, every
    other row is kept, and the placeholder token for the address is returned.
  */
  function Verify(st: Store, email: string, code: string, now: Schemas.Timestamp): (r: (Store, Result<Session, AuthError>))
    ensures r.1.Failure? <==> NoneActive(st.otps, Normalize(email), Strip(code), now)
    ensures r.1.Failure? ==> r.1.error == InvalidOrExpired && r.0 == st
    ensures r.1.Success? ==>
      var e := Normalize(email);
      var found := FindActive(st.otps, e, Strip(code), now);
      && found.Some?
      && r.0.otps == MarkUsed(st.otps, found.value, now)
      && r.0.users == UpsertVerified(st.users, e, now)
      && r.1.value == Session(true, TokenPrefix + e, e)
  {
    var e := Normalize(email);
    var c := Strip(code);
    match FindActive(st.otps, e, c, now)
    case None => (st, Failure(InvalidOrExpired))
    case Some(k) =>
      (Store(MarkUsed(st.otps, k, now), UpsertVerified(st.users, e, now)), Success(Session(true, Token(e), e)))
  }

  // ---------------------------------------------------------------- in place

  /**
    The service as the handlers run it: the two collections are updated in
    place. `dbConfigured` is false when no database handle is available, in
    which case both operations fail with `DatabaseNotConfigured`.
  */
  class AuthService {
    const dbConfigured: bool
    var otps: seq<OtpRecord>
    var users: map<string, UserRow>

    function State(): Store
      reads this
    {
      Store(otps, users)
    }

    constructor (dbConfigured: bool, initial: Store)
      ensures this.dbConfigured == dbConfigured && State() == initial
    {
      this.dbConfigured := dbConfigured;
      otps := initial.otps;
      users := initial.users;
    }

    /** Adds a lightweight unverified row for `email` unless it already has one. */
    method EnsureUser(email: string, now: Schemas.Timestamp)
      modifies this
      ensures otps == old(otps)
      ensures old(email in users) ==> users == old(users)
      ensures old(email !in users) ==> users == old(users)[email := NewUserRow(now)]
    {
      var existing := Lookup(users, email);
      if existing.None? {
        users := users[email := NewUserRow(now)];
      }
    }

    method RequestOtp(email: string, draw: nat, now: Schemas.Timestamp) returns (r: Result<Issued, AuthError>)
      requires draw <= MaxDraw
      modifies this
      ensures !dbConfigured ==> r == Failure(DatabaseNotConfigured) && State() == old(State())
      ensures dbConfigured ==> State() == Request(old(State()), email, draw, now).0
      ensures dbConfigured ==> r == Success(Request(old(State()), email, draw, now).1)
    {
      if !dbConfigured {
        return Failure(DatabaseNotConfigured);
      }
      var e := Normalize(email);
      var code := FormatCode(draw);
      var expiresAt := now + OtpLifetimeSeconds;
      otps := otps + [OtpRecord(e, code, now, expiresAt, false, None)];
      EnsureUser(e, now);
      r := Success(Issued(SentMessage, code, OtpLifetimeSeconds));
    }

    method VerifyOtp(email: string, code: string, now: Schemas.Timestamp) returns (r: Result<Session, AuthError>)
      modifies this
      ensures !dbConfigured ==> r == Failure(DatabaseNotConfigured) && State() == old(State())
      ensures dbConfigured ==> State() == Verify(old(State()), email, code, now).0
      ensures dbConfigured ==> r == Verify(old(State()), email, code, now).1
    {
      if !dbConfigured {
        return Failure(DatabaseNotConfigured);
      }
      ghost var before := State();
      var e := Normalize(email);
      var c := Strip(code);
      var found := FindActive(otps, e, c, now);
      if found.None? {
        assert Verify(before, email, code, now) == (before, Failure(InvalidOrExpired));
        return Failure(InvalidOrExpired);
      }
      var k := found.value;
      otps := MarkUsed(otps, k, now);
      users := UpsertVerified(users, e, now);
      r := Success(Session(true, Token(e), e));
      assert Verify(before, email, code, now) == (State(), r);
    }
  }
}
