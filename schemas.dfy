/**
  The record shapes of the storage collections, as declarative validators.
  Each model is a datatype, its field constraints a validity predicate, and
  building a record from the fields a caller supplies (with omitted fields
  taking their declared defaults) a function that either yields a valid record
  or reports which constraint failed.

  E-mail syntax checking (`EmailStr`) belongs to a foreign library and is not
  modelled: e-mail fields are plain strings here.
*/
module Schemas {
  import opened Wrappers

  /** Timestamps are whole seconds. */
  type Timestamp = int

  datatype ValidationError = AgeOutOfRange | CodeTooShort | CodeTooLong

  // ---------------------------------------------------------------- User

  const MinAge: int := 0
  const MaxAge: int := 120

  datatype User = User(name: string, email: string, address: string, age: Option<int>, isActive: bool)

  /** An age, when present, lies in 0..120. */
  predicate ValidAge(age: Option<int>)
  {
    age.Some? ==> MinAge <= age.value <= MaxAge
  }

  predicate ValidUser(u: User)
  {
    ValidAge(u.age)
  }

  /** Builds a `User`; `age` may be omitted, `isActive` defaults to true. */
  function UserOf(name: string, email: string, address: string, age: Option<int>, isActive: Option<bool>): (r: Result<User, ValidationError>)
    ensures r.Success? <==> (age.None? || 0 <= age.value <= 120)
    ensures r.Failure? ==> r.error == AgeOutOfRange
    ensures r.Success? ==> ValidUser(r.value)
    ensures r.Success? ==> r.value.name == name && r.value.email == email && r.value.address == address
    ensures r.Success? ==> r.value.age == age
    ensures r.Success? && isActive.None? ==> r.value.isActive
    ensures r.Success? && isActive.Some? ==> r.value.isActive == isActive.value
  {
    if !ValidAge(age) then Failure(AgeOutOfRange)
    else
      var active := match isActive case Some(b) => b case None => true;
      Success(User(name, email, address, age, active))
  }

  // ---------------------------------------------------------------- AuthUser

  datatype AuthUser = AuthUser(email: string, displayName: Option<string>, isVerified: bool, lastLogin: Option<Timestamp>)

  /**
    Builds an `AuthUser`. `displayName` and `lastLogin` default to none (an
    omitted optional field is `None`), and `isVerified` defaults to TRUE when
    omitted -- unlike the row the request handler writes, which sets it false
    explicitly.
  */
  function AuthUserOf(email: string, displayName: Option<string>, isVerified: Option<bool>, lastLogin: Option<Timestamp>): (u: AuthUser)
    ensures u.email == email && u.displayName == displayName && u.lastLogin == lastLogin
    ensures isVerified.None? ==> u.isVerified
    ensures isVerified.Some? ==> u.isVerified == isVerified.value
  {
    var verified := match isVerified case Some(b) => b case None => true;
    AuthUser(email, displayName, verified, lastLogin)
  }

  // ---------------------------------------------------------------- Otp

  const MinCodeLength: nat := 4
  const MaxCodeLength: nat := 10

  datatype Otp = Otp(email: string, code: string, expiresAt: Timestamp, used: bool)

  /** A code is between 4 and 10 characters long, both inclusive. */
  predicate ValidOtp(o: Otp)
  {
    MinCodeLength <= |o.code| <= MaxCodeLength
  }

  /** Builds an `Otp`; `used` defaults to false. */
  function OtpOf(email: string, code: string, expiresAt: Timestamp, used: Option<bool>): (r: Result<Otp, ValidationError>)
    ensures r.Success? <==> 4 <= |code| <= 10
    ensures r.Failure? ==> (r.error == CodeTooShort <==> |code| < 4)
    ensures r.Failure? ==> (r.error == CodeTooLong <==> |code| > 10)
    ensures r.Success? ==> ValidOtp(r.value)
    ensures r.Success? ==> r.value.email == email && r.value.code == code && r.value.expiresAt == expiresAt
    ensures r.Success? && used.None? ==> !r.value.used
    ensures r.Success? && used.Some? ==> r.value.used == used.value
  {
    if |code| < MinCodeLength then Failure(CodeTooShort)
    else if |code| > MaxCodeLength then Failure(CodeTooLong)
    else
      var isUsed := match used case Some(b) => b case None => false;
      Success(Otp(email, code, expiresAt, isUsed))
  }
}
