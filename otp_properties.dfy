/**
  What the OTP login flow promises across operations: a fresh code verifies
  once and only once, expiry is inclusive of the fifth minute, a wrong or
  expired code fails, the newest matching code is the one consumed, an older
  pending code survives a newer request, the address is matched up to case and
  surrounding whitespace, and the well-formedness of the stored records is kept.
*/
module OtpProperties {
  import opened Wrappers
  import opened OtpText
  import opened OtpAuth
  import Schemas

  /** Every stored record was created no later than `t`: the clock has not gone back. */
  predicate CreatedBy(otps: seq<OtpRecord>, t: Schemas.Timestamp)
  {
    forall j :: 0 <= j < |otps| ==> otps[j].createdAt <= t
  }

  /** The record appended by a request answers the query for its own address and code until it expires. */
  lemma IssuedRecordActive(st: Store, email: string, draw: nat, t: Schemas.Timestamp, email': string, code': string, now: Schemas.Timestamp)
    requires draw <= MaxDraw
    requires Normalize(email') == Normalize(email) && Strip(code') == FormatCode(draw)
    requires now <= t + OtpLifetimeSeconds
    ensures Active(Request(st, email, draw, t).0.otps[|st.otps|], Normalize(email'), Strip(code'), now)
  {
  }

  /**
    A code verifies, up to its fifth minute inclusive, with any spelling of the
    address that normalises alike and with whitespace around the code; when
    the clock has not gone back, the record consumed is the one just issued,
    even if an older record carries the same code.
  */
  lemma RequestThenVerify(st: Store, email: string, draw: nat, t: Schemas.Timestamp, email': string, code': string, now: Schemas.Timestamp)
    requires draw <= MaxDraw
    requires Normalize(email') == Normalize(email) && Strip(code') == FormatCode(draw)
    requires now <= t + OtpLifetimeSeconds
    requires CreatedBy(st.otps, t)
    ensures var st1 := Request(st, email, draw, t).0;
      && FindActive(st1.otps, Normalize(email), FormatCode(draw), now) == Some(|st.otps|)
      && var (st2, out) := Verify(st1, email', code', now);
      && out == Success(Session(true, Token(Normalize(email)), Normalize(email)))
      && st2.otps[|st.otps|].used
      && st2.users[Normalize(email)].isVerified
      && st2.users[Normalize(email)].lastLogin == Some(now)
  {
    var st1 := Request(st, email, draw, t).0;
    var n := |st.otps|;
    var e, c := Normalize(email), FormatCode(draw);
    IssuedRecordActive(st, email, draw, t, email', code', now);
    var found := FindActive(st1.otps, e, c, now);
    assert found.Some?;
    assert NoNewer(st1.otps, n, found.value);
  }

  /**
    A code that is the only active one for its address verifies exactly once:
    the first attempt succeeds and marks it used, and a second attempt with the
    same address and code, at the same time or later, fails.
  */
  lemma SingleUse(st: Store, email: string, code: string, now: Schemas.Timestamp, later: Schemas.Timestamp)
    requires now <= later
    requires var e, c := Normalize(email), Strip(code);
      forall i, j :: 0 <= i < |st.otps| && 0 <= j < |st.otps| && Active(st.otps[i], e, c, now) && Active(st.otps[j], e, c, now) ==> i == j
    requires Verify(st, email, code, now).1.Success?
    ensures Verify(Verify(st, email, code, now).0, email, code, later).1 == Failure(InvalidOrExpired)
  {
    var e, c := Normalize(email), Strip(code);
    var k := FindActive(st.otps, e, c, now).value;
    var st1 := Verify(st, email, code, now).0;
    forall j | 0 <= j < |st1.otps| ensures !Active(st1.otps[j], e, c, later) {
      if j != k && Active(st1.otps[j], e, c, later) {
        assert st1.otps[j] == st.otps[j];
        assert Active(st.otps[j], e, c, now);
      }
    }
  }

  /**
    A freshly issued code, when nothing else is pending for that address and
    code, logs the user in once; replaying it fails.
  */
  lemma FreshCodeWorksOnce(st: Store, email: string, draw: nat, t: Schemas.Timestamp, now: Schemas.Timestamp, later: Schemas.Timestamp)
    requires draw <= MaxDraw
    requires now <= t + OtpLifetimeSeconds && now <= later
    requires NoneActive(st.otps, Normalize(email), FormatCode(draw), now)
    ensures var st1 := Request(st, email, draw, t).0;
      && Verify(st1, email, FormatCode(draw), now).1.Success?
      && Verify(Verify(st1, email, FormatCode(draw), now).0, email, FormatCode(draw), later).1 == Failure(InvalidOrExpired)
  {
    var st1 := Request(st, email, draw, t).0;
    var e, c := Normalize(email), FormatCode(draw);
    DigitsStripToThemselves(c);
    IssuedRecordActive(st, email, draw, t, email, c, now);
    forall i, j | 0 <= i < |st1.otps| && 0 <= j < |st1.otps| && Active(st1.otps[i], e, c, now) && Active(st1.otps[j], e, c, now)
      ensures i == j
    {
    }
    SingleUse(st1, email, c, now, later);
  }

  /** A request adds no answer to a query its new record does not match. */
  lemma NoneActiveAfterRequest(st: Store, email: string, draw: nat, t: Schemas.Timestamp, e: string, c: string, now: Schemas.Timestamp)
    requires draw <= MaxDraw
    requires NoneActive(st.otps, e, c, now)
    requires e != Normalize(email) || c != FormatCode(draw) || now > t + OtpLifetimeSeconds
    ensures NoneActive(Request(st, email, draw, t).0.otps, e, c, now)
  {
    var st1 := Request(st, email, draw, t).0;
    var n := |st.otps|;
    forall j | 0 <= j < |st1.otps| ensures !Active(st1.otps[j], e, c, now) {
      if j < n { assert st1.otps[j] == st1.otps[..n][j]; }
    }
  }
  /** After its fifth minute a code fails, unless another record still answers for it. */
  lemma ExpiredCodeRejected(st: Store, email: string, draw: nat, t: Schemas.Timestamp, now: Schemas.Timestamp)
    requires draw <= MaxDraw
    requires now > t + OtpLifetimeSeconds
    requires NoneActive(st.otps, Normalize(email), FormatCode(draw), now)
    ensures var st1 := Request(st, email, draw, t).0;
      Verify(st1, email, FormatCode(draw), now) == (st1, Failure(InvalidOrExpired))
  {
    DigitsStripToThemselves(FormatCode(draw));
    NoneActiveAfterRequest(st, email, draw, t, Normalize(email), FormatCode(draw), now);
  }
  /** A code other than the one issued fails, unless another record answers for it. */
  lemma WrongCodeRejected(st: Store, email: string, draw: nat, t: Schemas.Timestamp, code: string, now: Schemas.Timestamp)
    requires draw <= MaxDraw
    requires Strip(code) != FormatCode(draw)
    requires NoneActive(st.otps, Normalize(email), Strip(code), now)
    ensures var st1 := Request(st, email, draw, t).0;
      Verify(st1, email, code, now) == (st1, Failure(InvalidOrExpired))
  {
    NoneActiveAfterRequest(st, email, draw, t, Normalize(email), Strip(code), now);
  }
  /**
    Requesting a new code does not revoke an older one: a pending code with a
    different value still verifies, and it consumes the same record it would
    have consumed before the new request.
  */
  lemma OlderCodeStillValid(st: Store, email: string, draw: nat, t: Schemas.Timestamp, code: string, now: Schemas.Timestamp)
    requires draw <= MaxDraw
    requires Strip(code) != FormatCode(draw)
    requires !NoneActive(st.otps, Normalize(email), Strip(code), now)
    ensures var st1 := Request(st, email, draw, t).0;
      && FindActive(st1.otps, Normalize(email), Strip(code), now) == FindActive(st.otps, Normalize(email), Strip(code), now)
      && Verify(st1, email, code, now).1.Success?
  {
    var st1 := Request(st, email, draw, t).0;
    assert st1.otps[..|st.otps|] == st.otps;
  }

  /** Whitespace around the address and the code, and the case of the address, do not matter to verification. */
  lemma VerifyIgnoresPadding(st: Store, p: string, email: string, q: string, p': string, code: string, q': string, now: Schemas.Timestamp)
    requires AllSpace(p) && AllSpace(q) && AllSpace(p') && AllSpace(q')
    ensures Verify(st, p + email + q, p' + code + q', now) == Verify(st, email, code, now)
  {
    NormalizeIgnoresPadding(p, email, q);
    StripIgnoresPadding(p', code, q');
  }

  lemma VerifyIgnoresCase(st: Store, email: string, email': string, code: string, now: Schemas.Timestamp)
    requires |email| == |email'|
    requires forall i :: 0 <= i < |email| ==> AsciiLower(email[i]) == AsciiLower(email'[i])
    ensures Verify(st, email, code, now) == Verify(st, email', code, now)
  {
    NormalizeIgnoresCase(email, email');
  }

  // ---------------------------------------------------------------- invariant

  /**
    The shape every stored record has when the store was built by the two
    operations alone: addresses are normalised, codes are six digits, each
    code lives five minutes, and a used record carries an update stamp.
  */
  predicate WellFormedRecord(r: OtpRecord)
  {
    && Normalize(r.email) == r.email
    && |r.code| == CodeWidth && AllDigits(r.code)
    && r.expiresAt == r.createdAt + OtpLifetimeSeconds
    && (r.used ==> r.updatedAt.Some?)
  }

  predicate WellFormed(st: Store)
  {
    && (forall j :: 0 <= j < |st.otps| ==> WellFormedRecord(st.otps[j]))
    && (forall a :: a in st.users ==> Normalize(a) == a)
  }

  lemma RequestPreservesWellFormed(st: Store, email: string, draw: nat, now: Schemas.Timestamp)
    requires draw <= MaxDraw
    requires WellFormed(st)
    ensures WellFormed(Request(st, email, draw, now).0)
  {
    var st1 := Request(st, email, draw, now).0;
    var n := |st.otps|;
    var e := Normalize(email);
    NormalizeIdempotent(email);
    assert st1.otps[n] == OtpRecord(e, FormatCode(draw), now, now + 300, false, None);
    assert WellFormedRecord(st1.otps[n]);
    forall j | 0 <= j < |st1.otps| ensures WellFormedRecord(st1.otps[j]) {
      if j < n {
        assert st1.otps[j] == st1.otps[..n][j] == st.otps[j];
        assert WellFormedRecord(st.otps[j]);
      } else {
        assert j == n;
      }
    }
    forall a | a in st1.users ensures Normalize(a) == a {
      if a != e { assert a in st.users; }
    }
  }

  lemma VerifyPreservesWellFormed(st: Store, email: string, code: string, now: Schemas.Timestamp)
    requires WellFormed(st)
    ensures WellFormed(Verify(st, email, code, now).0)
  {
    var (st1, out) := Verify(st, email, code, now);
    if out.Success? {
      var e, c := Normalize(email), Strip(code);
      var k := FindActive(st.otps, e, c, now).value;
      forall j | 0 <= j < |st1.otps| ensures WellFormedRecord(st1.otps[j]) {
        if j != k {
          assert st1.otps[j] == st.otps[j];
        } else {
          assert WellFormedRecord(st.otps[k]);
        }
      }
      NormalizeIdempotent(email);
      forall a | a in st1.users ensures Normalize(a) == a {
        if a != e { assert a in st.users; }
      }
    }
  }

  /**
    A record's `used` flag only ever goes from false to true: verification
    changes at most one record, an unused one, and never touches a used one.
  */
  lemma UsedRecordsFrozen(st: Store, email: string, code: string, now: Schemas.Timestamp)
    ensures var st1 := Verify(st, email, code, now).0;
      && |st1.otps| == |st.otps|
      && (forall j :: 0 <= j < |st.otps| && st.otps[j].used ==> st1.otps[j] == st.otps[j])
      && (forall i, j :: 0 <= i < j < |st.otps| && st1.otps[i] != st.otps[i] ==> st1.otps[j] == st.otps[j])
      && (forall j :: 0 <= j < |st.otps| && st1.otps[j] != st.otps[j] ==> !st.otps[j].used && st1.otps[j].used)
  {
    var (st1, out) := Verify(st, email, code, now);
    if out.Success? {
      var k := FindActive(st.otps, Normalize(email), Strip(code), now).value;
      assert forall j :: 0 <= j < |st.otps| && st1.otps[j] != st.otps[j] ==> j == k;
    }
  }
}
