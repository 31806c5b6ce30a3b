# Passwordless one-time-passcode login, modelled in Dafny

The backend logs users in by e-mail without passwords. `POST /auth/request-otp`
normalises the address, draws a six-digit code, stores an OTP record that expires
five minutes later and makes sure a lightweight, unverified user row exists.
`POST /auth/verify-otp` normalises the address and the code and looks for the
newest record with that address and code that is unused and not yet expired. It
fails with "Invalid or expired code" when none is found. Otherwise it marks that
record used, upserts the user as verified with a `last_login` stamp and returns a
placeholder token. The record shapes come from the Pydantic schemas (`User`,
`AuthUser`, `Otp`).

The project has five modules:

- `Wrappers` (`wrappers.dfy`) holds `Option` and `Result`.
- `Schemas` (`schemas.dfy`) models `schemas.py`. Each model is a datatype. Its
  field bounds are a validity predicate. Building it from caller-supplied fields
  is a function that fills in the declared defaults or reports the violated bound.
- `OtpText` (`otp_text.dfy`) holds the string helpers `main.py` computes inline:
  ASCII lower-casing, `str.strip()`, the normalised address, the zero-padded
  six-digit code with its decimal read-back, and the token.
- `OtpAuth` (`otp_auth.dfy`) holds the two collections as a `Store`: a sequence of
  OTP records and a map from address to user row. It defines the newest-first
  query `FindActive` and the two storage updates (`MarkUsed`, `UpsertVerified`).
  `Request` and `Verify` state each handler as a function of the old store. The
  `AuthService` class holds the same state in fields. Its methods `RequestOtp`
  and `VerifyOtp` update the fields in place, and each method is proved to equal
  its function.
- `OtpProperties` (`otp_properties.dfy`) proves what holds across operations:
  single use, expiry, wrong code, newest-match selection, older codes surviving a
  newer request, insensitivity to case and padding, and an invariant both
  operations keep.

Time is whole seconds. The current time and the random draw are parameters.
`database.py` is not part of this model. The model assumes that
`create_document` stamps `created_at` with the request time and leaves
`updated_at` unset. When two matching records have the same `created_at`, the
model assumes the one stored later comes first in the newest-first sort.

Three behaviours of the code are easy to expect otherwise. The model follows
the code in each:

- A newer request does not revoke an older pending code for the same address.
  The older code stays valid until it is used or expires (`OlderCodeStillValid`).
- A code is still accepted at exactly `expires_at`, because the query uses
  `$gte`. It is rejected only from the next second on, in whole seconds
  (`RequestThenVerify`, `ExpiredCodeRejected`).
- `Otp.used` in the schema and the request handler's row agree (false). For
  `AuthUser.is_verified` they do not: the schema default is true, but the row
  written on request sets false explicitly. Both are modelled as written.

## Model

| member | source | states |
|---|---|---|
| `Schemas.ValidAge` | schemas.py:21 | An age is valid when it is absent or lies in 0..120, both ends included |
| `Schemas.UserOf` | schemas.py:17-22 | A `User` builds exactly when `age` is absent or in 0..120, else fails with `AgeOutOfRange`; `is_active` defaults to true; the result is valid and keeps the given fields |
| `Schemas.AuthUserOf` | schemas.py:32-40 | An omitted `is_verified` becomes true, an omitted `display_name`/`last_login` is none; given values are kept |
| `Schemas.ValidOtp` | schemas.py:48 | An `Otp` is valid when its code has between 4 and 10 characters, both ends included |
| `Schemas.OtpOf` | schemas.py:42-50 | An `Otp` builds exactly when the code has 4 to 10 characters (too short / too long reported apart); `used` defaults to false |
| `OtpText.Lower` | main.py:87 | Lower-cases ASCII letters only, leaves every other character alone, and keeps the length |
| `OtpText.LowerPointwise` | main.py:87 | Lower-casing keeps the length and lower-cases each character on its own (ASCII letters only) |
| `OtpText.TrimStartSplits` | main.py:87 | Leading trim removes a run of whitespace and stops at the first non-whitespace character |
| `OtpText.TrimEndSplits` | main.py:87 | Trailing trim removes a run of whitespace and stops at the last non-whitespace character |
| `OtpText.Strip` | main.py:126 | `str.strip()` with no argument, also applied to the address at main.py:87: removes the leading and trailing characters of the `str.isspace()` set, which is U+0009-U+000D, U+001C-U+0020, U+0085, U+00A0, U+1680, U+2000-U+200A, U+2028, U+2029, U+202F, U+205F and U+3000 |
| `OtpText.StripSplits` | main.py:87 | Every string is some whitespace, then its stripped form, then some whitespace; the stripped form has no whitespace at either end |
| `OtpText.StripPadded` | main.py:126 | That split is unique: stripping whitespace-padded tight text gives back exactly that text |
| `OtpText.StripIgnoresPadding` | main.py:126 | Extra whitespace around any string does not change what it strips to |
| `OtpText.StripIdempotent` | main.py:126 | Stripping twice is stripping once |
| `OtpText.Normalize` | main.py:87 | The address as both handlers normalise it (also main.py:125): ASCII-lower-cased, then stripped of surrounding whitespace. The result is never longer than the address and has no whitespace at either end |
| `OtpText.NormalizeIdempotent` | main.py:87 | Normalising an address (lower-case, then strip) twice is normalising it once |
| `OtpText.NormalizeIgnoresPadding` | main.py:125 | Whitespace around an address does not change its normal form |
| `OtpText.NormalizeIgnoresCase` | main.py:125 | Addresses that differ only in ASCII letter case have the same normal form |
| `OtpText.ZeroPaddedRoundTrip` | main.py:88 | Reading back the zero-padded rendering of a number that fits the width gives the number |
| `OtpText.DecimalValueRoundTrip` | main.py:88 | Rendering a digit string's value at the string's width gives the string back |
| `OtpText.FormatCode` | main.py:88 | The code for a draw in 0..999999 is exactly six ASCII digits with leading zeros kept, and it reads back as the draw |
| `OtpText.FormatCodeBijective` | main.py:88 | Every six-digit string is the code of exactly one draw in 0..999999 |
| `OtpText.DigitsStripToThemselves` | main.py:126 | Stripping an issued code leaves it unchanged |
| `OtpText.Token` | main.py:154 | The token is `"demo-token-"` followed by the address, and the address can be read back from it |
| `OtpText.TokenIdentifiesEmail` | main.py:154 | Equal tokens mean equal addresses |
| `OtpAuth.StatusCode` | main.py:122-141 | A missing database is reported as 500 and a failed verification as 400, and only those |
| `OtpAuth.Active` | main.py:131-136 | A record matches the verification query when it has the given address and code, is unused, and `expires_at >= now` |
| `OtpAuth.FindActive` | main.py:130-138 | The query finds nothing exactly when no record has this address and code, is unused and has `expires_at >= now`. Otherwise it returns such a record, and no other such record is newer by `created_at` |
| `OtpAuth.NewUserRow` | main.py:103-109 | The lightweight row a request inserts: no display name, unverified, no last login, created and updated now |
| `OtpAuth.VerifiedRow` | main.py:147-151 | The upserted row is verified with `last_login = updated_at = now`. An existing row keeps its name and creation stamp; a created row has neither |
| `OtpAuth.MarkUsed` | main.py:144 | The selected record becomes used with `updated_at = now`; every other record and the length are unchanged |
| `OtpAuth.UpsertVerified` | main.py:147-151 | The address's row (added if absent) becomes verified with `last_login = now`; every other row is unchanged |
| `OtpAuth.Request` | main.py:82-117 | Appends exactly one record (normalised address, the code, created now, expires now + 300, unused) and keeps all older records. Adds an unverified row only if the address has none. Returns the six-digit code of the draw and `expires_in_seconds = 300`. The record passes the `Otp` schema |
| `OtpAuth.Verify` | main.py:120-156 | Fails with `InvalidOrExpired` and no state change exactly when no record is active for the normalised address and stripped code. Otherwise only the newest active record is marked used, the user is upserted as verified, and the token `"demo-token-" + email` is returned |
| `OtpAuth.AuthService.EnsureUser` | main.py:100-109 | Leaves the users unchanged when the address has a row, else adds one unverified row; records untouched |
| `OtpAuth.AuthService.RequestOtp` | main.py:82-117 | Without a database fails with `DatabaseNotConfigured` and changes nothing; otherwise the new state and response are those of `Request` |
| `OtpAuth.AuthService.VerifyOtp` | main.py:120-156 | Without a database fails with `DatabaseNotConfigured` and changes nothing; otherwise the new state and result are those of `Verify` |
| `OtpProperties.IssuedRecordActive` | main.py:89-98 | The new record matches its own address and code up to and including its expiry second |
| `OtpProperties.RequestThenVerify` | main.py:130-156 | A code verifies until now = issue time + 300 inclusive, with any address that normalises alike and any whitespace around the code. If the clock has not gone back, the record consumed is the new one, even when an older record has the same code. Afterwards the user is verified with `last_login = now` |
| `OtpProperties.SingleUse` | main.py:134-144 | If one record is the only match, a successful verify followed by the same verify at the same time or later fails |
| `OtpProperties.FreshCodeWorksOnce` | main.py:82-156 | With nothing else pending for that address and code, a newly issued code verifies once, and replaying it fails |
| `OtpProperties.NoneActiveAfterRequest` | main.py:92-98 | A request creates no match for a query with a different address, a different code, or a time after its expiry |
| `OtpProperties.ExpiredCodeRejected` | main.py:135-141 | After issue time + 300 the issued code fails with no state change (when no other record matches) |
| `OtpProperties.WrongCodeRejected` | main.py:133-141 | A code other than the issued one fails with no state change (when no other record matches) |
| `OtpProperties.OlderCodeStillValid` | main.py:130-138 | A newer request with a different code does not revoke a pending older code: it still verifies, and the same record is consumed |
| `OtpProperties.VerifyIgnoresPadding` | main.py:125-126 | Whitespace around the address or the code does not change the outcome of verification |
| `OtpProperties.VerifyIgnoresCase` | main.py:125 | ASCII letter case in the address does not change the outcome of verification |
| `OtpProperties.RequestPreservesWellFormed` | main.py:87-109 | Request keeps this invariant: every record has a normalised address, a six-digit code and a 300-second lifetime, and a used record carries an update stamp; every user key is normalised |
| `OtpProperties.VerifyPreservesWellFormed` | main.py:144-151 | Verify keeps the same invariant |
| `OtpProperties.UsedRecordsFrozen` | main.py:134-144 | Verify never changes a used record and changes at most one record, from unused to used |

## Left out

- HTTP plumbing is not modelled: app creation, CORS, the two static endpoints, the `/test` diagnostic endpoint and `uvicorn` startup (main.py:12-78 and main.py:159-163). They hold no login logic.
- `random.randint` is a parameter `draw` with 0 <= draw <= 999999. Randomness and its quality are not modelled.
- Timezone-aware `datetime` values are whole seconds, and `timedelta(minutes=5)` is 300.
- `EmailStr` syntax validation is not modelled, because it belongs to a foreign library. Addresses are plain strings assumed to be syntactically valid.
- `OtpText.Lower`: lower-cases ASCII letters only. Python's `str.lower()` also lower-cases non-ASCII letters. Whitespace stripping uses the full `str.isspace()` set.
- MongoDB is modelled as a sequence of records and a map keyed by address. `_id` is the record's position. `database.py` is not part of this model: the `created_at` stamp and the tie-break on equal stamps are the assumptions stated above.
- Duplicate user rows are not modelled. The map holds at most one row per address. Two concurrent requests can race past the find-then-insert and create two rows, and the model is sequential.
- Atomicity is not modelled. The two writes of a verification are one step here, so a failure between them cannot be expressed.
- Storage errors other than a missing database handle are not modelled.
- `Product` is not modelled, because its only constrained field, `price`, is a float.
- `OtpAuth.StatusCode`: covers only the two errors the handlers raise. Pydantic's 422 for a malformed body is not modelled.
