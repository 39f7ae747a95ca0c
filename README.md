# otp-app-backend: accounts, one-time codes and sessions

A Dafny model of the account core of an Express/Mongoose service. People
register with an email and receive a six-digit one-time code (OTP) by mail,
then log in with that code. A login that succeeds gets a signed session token
in an http-only cookie. Behind an authentication gate, a logged-in user can
edit their profile, their addresses and their sub-users.

What the model covers:

- **The User collection** (`UserModel`). The record, its embedded address and
  sub-user arrays, and the schema's defaults.
  - Emails are lower-cased, and the unique index on email is enforced on save.
  - The sub-user fields are required.
  - The TTL index on `otp_expiry` is modelled as an explicit `Purge(now)`.
  - Also modelled: the claims that `getJWTToken` signs, and a `Store` class
    that holds the collection as a `map` and provides `findOne`, `findById`,
    `save` and `findByIdAndDelete`.
- **`generateOtp` and `verifyUser`** (`SendOtp`). One-time codes, and spending
  a code once it has matched.
- **`sendToken`** (`Tokens`). The session reply, the cookie and the public
  projection of the record.
- **`isAuthenticated`** (`Auth`). A pure decision chain `Gate`. A `Request`
  class whose `user` and `next` count the middleware updates when it admits.
- **The handlers of `controllers/userCtrl.js`** (`UserCtrl`). Each handler is
  written twice:
  - A function from the collection before the request to a `Step`, which
    holds the reply, the collection after the request and the mail sent.
  - A method on the `Store` that does what the handler does: look the record
    up, change it, save it. Its postcondition says it produces exactly that
    `Step`.

  Lemmas about the step functions state what the handlers promise:
  - Registration is refused for an email that is taken in any letter case.
  - A fresh registration followed by a login with the mailed code opens a
    session.
  - A code can be used once, and an expired code is cleared.
  - Reissuing a code invalidates the old one.
  - A code sent as a JSON string never matches.
  - The sub-user handlers with a lower-casing duplicate check leave no record
    with two sub-users sharing an email or a number. The handlers as written
    can store one email twice (see Findings).
  - Deleting an address or a sub-user is idempotent.

Time is an integer count of milliseconds, passed in as `now`. Those inputs
are parameters:
- `k`, the random draw of `generateOtp`;
- the mail server's verdict (`Delivery`);
- `jwt.sign` and `jwt.verify` (`sign`, `Decode`);
- the ids the database hands out.

The model follows the code as written, including these behaviours a reader
might not expect:
- login's expiry test is strict (`otp_expiry < now`), so a code is still good
  at its expiry instant;
- sendOtpCtrl mails the code before it stores it;
- a token that `jwt.verify` rejects gets the 500 from the middleware's
  `catch`, not a 401;
- a second login with a spent code is refused as expired, not as invalid:
  spending clears `otp_expiry`, and null compares as 0;
- the token payload is `{_id}` alone, and `iat` and `exp` are added by the
  library.

The unique index on email (models/userModel.js:45) is kept as a save-time
check. updateProfile changes the email without any lookup, so without the
index the collection could hold two records with one email.

The handlers are modelled as written, including the three defects listed
under Findings. Each corrected definition is modelled beside the as-written one,
and the intended property is proved about it.

Mongoose is taken to be version 6 or later, which applies the lower-case
setter to query filters. So `findOne({ email })` matches the lower-cased email.

## Model

| member | source | states |
|---|---|---|
| Js.Lower | models/userModel.js:43-47 | the lowercase setter: same length, each character lower-cased, result has no upper-case letter |
| Js.LowerIdempotent | models/userModel.js:43-47 | lower-casing an already lower-cased email changes nothing |
| Js.StrictEqualsNumber | utils/sendOtp.js:20 | `===` between the Number `otp` field and a JSON value: only the same number matches, and a null field matches only null |
| Js.NatToDecimal | utils/sendOtp.js:5 | `toString()` of a natural number: its decimal digits, most significant first |
| Js.DecimalValue | models/userModel.js:61 | the Number cast of a digit string, the inverse of NatToDecimal |
| Js.DecimalRoundTrip | utils/sendOtp.js:5 | the Number cast of `otp.toString()` gives back the number |
| Js.DecimalLength | utils/sendOtp.js:4-5 | a number in [10^(d-1), 10^d) prints with exactly d digits |
| Js.NoLeadingZero | utils/sendOtp.js:4-5 | the decimal form of a number never starts with '0' unless it is 0 |
| UserModel.IndexOf | controllers/userCtrl.js:311-313 | `find`/`findIndex` by `_id`: the first matching index, or -1 exactly when no entry has the id |
| UserModel.Without | controllers/userCtrl.js:341-343 | `filter` by `_id`: keeps exactly the entries with another id |
| UserModel.WithoutMembers | controllers/userCtrl.js:341-343 | an entry is kept exactly when it was in the list and has another id |
| UserModel.WithoutAppend | controllers/userCtrl.js:341-343 | the filter keeps the order of what it keeps (it distributes over concatenation) |
| UserModel.WithoutIdempotent | controllers/userCtrl.js:458-460 | filtering twice by one id is filtering once |
| UserModel.WithoutAbsent | controllers/userCtrl.js:341-343 | filtering by an id no entry has leaves the list unchanged |
| UserModel.WithoutKeepsUnique | controllers/userCtrl.js:458-460 | removing sub-users keeps the rest pairwise distinct in id, email and number |
| UserModel.EmailOwner | models/userModel.js:43-47 | the record `findOne({ email })` finds has that email; none means no record has it |
| UserModel.OwnerIsUnique | models/userModel.js:45 | with the unique index, the lookup of a record's email finds that record |
| UserModel.SaveCheck | models/userModel.js:4-18 | `save()` succeeds exactly when every sub-user is complete and no other record has the email, else it throws ValidationError or DuplicateKey |
| UserModel.SavePreservesValid | models/userModel.js:43-47 | an accepted save of a normalised record keeps the collection valid: ids, validators, unique emails |
| UserModel.SaveKeepsOwners | models/userModel.js:45 | saving a record with unchanged email changes no email's owner |
| UserModel.Purge | models/userModel.js:80 | the TTL pass keeps exactly the records whose otp_expiry has not passed, unchanged |
| UserModel.TtlExpired | models/userModel.js:80 | with `expireAfterSeconds: 0`, a record may go once its non-null otp_expiry is not after now |
| UserModel.PurgePreservesValid | models/userModel.js:80 | the TTL pass keeps the collection valid |
| UserModel.JwtClaimsAsWritten | models/userModel.js:72-78 | the claims as written: payload id, `iat` the signing second, `exp - iat` equal to 172800000 (read as seconds) |
| UserModel.Claims | models/userModel.js:74-76 | the claims jsonwebtoken adds for a numeric `expiresIn`: `iat` the signing second, `exp` equal to `iat + expiresIn` |
| UserModel.JwtClaimsFor | models/userModel.js:72-78 | corrected claims: payload id, and the token expires within the last second before the cookie does |
| UserModel.AsWrittenTokenOutlivesCookie | models/userModel.js:72-78 | the token as written expires about 2000 days after signing, not 2 |
| UserModel.NewUser | models/userModel.js:57-65 | a new record: lower-cased email, verified false, empty arrays, the given otp, otp_expiry the given one or the schema default |
| UserModel.Store.constructor | models/userModel.js:62-65 | the otp_expiry default is one timestamp fixed when the schema is defined, five minutes after that time |
| UserModel.Store.FindOne | controllers/userCtrl.js:14 | `User.findOne({ email })` returns the owner of the lower-cased email, or null when there is none |
| UserModel.Store.FindById | utils/sendOtp.js:10 | `User.findById(id)` returns the record under the id, or null |
| UserModel.Store.Save | models/userModel.js:43-47 | `save()` stores the record when SaveCheck accepts it, else changes nothing; the collection stays valid |
| UserModel.Store.FindByIdAndDelete | controllers/userCtrl.js:242 | removes the record and returns it, or null when it was not there |
| UserModel.Store.ExpireOtps | models/userModel.js:80 | the collection becomes its TTL purge at `now` and stays valid |
| SendOtp.GenerateOtp | utils/sendOtp.js:3-6 | six decimal digits, no leading zero, value 100000 + k |
| SendOtp.StoredOtp | models/userModel.js:61 | the Number stored from the code lies in [100000, 999999] and prints back as the same code |
| SendOtp.VerifyUserSpec | utils/sendOtp.js:8-46 | a failure changes nothing and returns no user; a success means the record exists and its otp equals the submitted value strictly, and it is stored and returned verified with the code cleared |
| SendOtp.Consumed | utils/sendOtp.js:28-30 | the matched record: verified, otp and otp_expiry null, all else unchanged |
| SendOtp.ResaveSucceeds | utils/sendOtp.js:32 | saving a record with unchanged email and sub-users never throws |
| SendOtp.VerifyUserOutcomes | utils/sendOtp.js:12-38 | unknown id gives "User not found", mismatch gives "Invalid OTP" (both unchanged), match gives "Account Verified"; the collection stays valid |
| SendOtp.CodeIsSingleUse | utils/sendOtp.js:28-38 | after a successful verify, the same non-null code fails with "Invalid OTP" |
| SendOtp.StringCodeNeverVerifies | utils/sendOtp.js:20 | `!==` against a Number field: a string code never verifies |
| SendOtp.VerifyUser | utils/sendOtp.js:8-46 | the method's result and new collection are exactly VerifyUserSpec's, and the collection stays valid |
| Tokens.SendToken | utils/sendToken.js:1-31 | the reply as written: no user or no id gives 500 "User information not available" without cookie; otherwise success exactly when signing `getJWTToken`'s as-written claims succeeds, with the given status and message, the `{_id, email, verified}` projection, and a cookie holding the body's token |
| Tokens.SendTokenCorrected | utils/sendToken.js:1-31 | the same reply with the token signed over the corrected claims JwtClaimsFor |
| Tokens.SessionReply | utils/sendToken.js:2-30 | the reply for a given token lifetime: the 500 for a missing user or id, the signing error's 500, or the status, message, projection, token and cookie |
| Tokens.SessionCookieShape | utils/sendToken.js:9-17 | the cookie is `token`, http-only, path "/", domain "localhost", expires 172800000 ms after issue, value equal to the body's token |
| Auth.Gate | middleware/auth.js:9-46 | each 401 reason holds exactly when its check is the first to fail; a 500 exactly for a thrown decode or lookup; admission exactly when every check passes, with the looked-up verified record |
| Auth.TokenExpired | middleware/auth.js:26 | `decoded.exp * 1000 <= Date.now()`, false when `exp` is absent |
| Auth.LookupIn | middleware/auth.js:33 | `findById` of the decoded id: the record, null, or the thrown cast or query error |
| Auth.Rejection | middleware/auth.js:9-46 | a 401 with the verdict's reason, or the caught 500 |
| Auth.ExpiresAtBoundary | middleware/auth.js:26 | at `exp * 1000 == now` the token already counts as expired, one millisecond earlier it does not |
| Auth.MissingExpNeverExpires | middleware/auth.js:26 | a payload without `exp` never fails the expiry check |
| Auth.IsAuthenticated | middleware/auth.js:5-53 | a rejection is answered and leaves `req` unchanged; admission answers nothing, sets `req.user` to the record under the token's id and calls `next` once |
| Auth.SessionRoundTrip | middleware/auth.js:16-46 | the token sendToken issues at login, as written, admits its verified record up to `issued + 1000 * CookieExpirationTime - 1000` (about 2000 days, so long after the cookie expired), and is refused as expired from `issued + 1000 * CookieExpirationTime` |
| Auth.SessionGate | middleware/auth.js:16-46 | a non-empty token whose claims name a verified record is admitted exactly while `now < exp * 1000`, else refused as expired |
| Auth.SessionRoundTripCorrected | middleware/auth.js:16-46 | with the corrected claims, the session is admitted until the last second before the cookie expires and refused as expired from the cookie's expiry on |
| UserCtrl.Commit | controllers/userCtrl.js:203 | a handler's save: the success reply and the stored record when SaveCheck accepts, else the 500 and no change |
| UserCtrl.RegisterSpec | controllers/userCtrl.js:8-57 | register: a taken email (any letter case) gets 400; otherwise the new record is saved, then the code mailed; a failed mail answers 500 but keeps the record |
| UserCtrl.RegisterTakenEmail | controllers/userCtrl.js:14-22 | an email some record has, in any letter case, is refused with 400, no change and no mail |
| UserCtrl.RegisterFreshEmail | controllers/userCtrl.js:25-44 | a free email adds exactly one record (lower-cased email, unverified, the mailed code, expiry now + 300000), saved before the mail; success exactly when the mail goes out; the collection stays valid |
| UserCtrl.SendOtpReissues | controllers/userCtrl.js:64-90 | a known email gets the code mailed, and only that record's otp and otp_expiry change |
| UserCtrl.Reissued | controllers/userCtrl.js:82-83 | the record with the new code and an expiry five minutes after now, all else unchanged |
| UserCtrl.SendOtpFailureChangesNothing | controllers/userCtrl.js:64-93 | an unknown email or a failed mail leaves the collection unchanged and fails |
| UserCtrl.SendOtpSpec | controllers/userCtrl.js:59-95 | sendOtpCtrl: an unknown email gets 400; the code is mailed before it is stored, so a failed mail answers 500 with no change |
| UserCtrl.LoginSpec | controllers/userCtrl.js:97-141 | login: missing fields 400, unknown email 404, an expired code is cleared and refused, otherwise verifyUser decides and sendToken answers |
| UserCtrl.LoginEarlyExits | controllers/userCtrl.js:101-114 | a missing email or a falsy code gets 400 before the lookup, an unknown email 404, both with no change |
| UserCtrl.ExpiryValue | controllers/userCtrl.js:117 | `otp_expiry < now` reads a null expiry as 0 |
| UserCtrl.Cleared | controllers/userCtrl.js:118-119 | the refused record: otp and otp_expiry null, all else unchanged |
| UserCtrl.NoPendingCodeCannotLogIn | controllers/userCtrl.js:116-126 | a record with null otp_expiry is always refused as expired (null compares as 0) and nothing changes |
| UserCtrl.ExpiredCodeIsCleared | controllers/userCtrl.js:116-126 | an expired code is refused and cleared, leaving `verified` unchanged |
| UserCtrl.LoginIsSingleUse | controllers/userCtrl.js:116-137 | after a login that opens a session, the same login is refused as expired |
| UserCtrl.StringCodeCannotLogIn | controllers/userCtrl.js:128-135 | a code posted as a JSON string never logs in |
| UserCtrl.ReissueInvalidatesOldCode | controllers/userCtrl.js:75-84 | after a reissue, within the new code's five minutes, the previous code is refused with "Invalid OTP" and nothing changes, while the new code verifies the record, spends the code and answers with sendToken's session |
| UserCtrl.RegisterThenLogin | controllers/userCtrl.js:8-141 | register then login with the code within five minutes verifies the record, spends the code and answers with sendToken's session, whether or not the mail was sent |
| UserCtrl.LoginWithPendingCode | controllers/userCtrl.js:111-137 | the pending code, before its expiry, verifies the record, spends the code and answers with sendToken's session |
| UserCtrl.IdleReissuedAccountIsPurged | models/userModel.js:80 | a record that was sent a new code and did not use it within five minutes is deleted by the TTL pass, even if it was verified |
| UserCtrl.MergeAddresses | controllers/userCtrl.js:183-201 | corrected merge: no addresses in the body keeps the list; a matching `_id` overwrites that entry's five fields in place; otherwise the list becomes the one given address |
| UserCtrl.NewAddressId | controllers/userCtrl.js:200 | the address that replaces the list keeps the body's `_id` when it has one, else gets a fresh id |
| UserCtrl.MergeAddressesAsWritten | controllers/userCtrl.js:183-201 | the merge as written throws exactly when the body has no addresses and the list is non-empty, else agrees with MergeAddresses |
| UserCtrl.AbsentAddressesThrowAsWritten | controllers/userCtrl.js:186-188 | a body without addresses throws for a record with addresses, where the corrected merge keeps them |
| UserCtrl.Profiled | controllers/userCtrl.js:169-201 | each truthy field overwrites (the email lower-cased), the others stay, and the address list becomes the merge's outcome |
| UserCtrl.IfGiven | controllers/userCtrl.js:169 | `if (name) user.name = name`: a non-empty value overwrites, else the field stays |
| UserCtrl.ProfiledNormalised | controllers/userCtrl.js:169-171 | the profile update keeps a record normalised |
| UserCtrl.UpdateProfileSpec | controllers/userCtrl.js:155-228 | updateProfile as written: 404 for a missing record; the as-written merge's TypeError gives 500 with no change; otherwise the profiled record is saved |
| UserCtrl.UpdateProfileWithoutAddressesThrows | controllers/userCtrl.js:183-188 | a body with no addresses, for a record that has an address, answers 500 with the caught TypeError and changes nothing |
| UserCtrl.ProfileEmailTaken | controllers/userCtrl.js:170 | changing to an email that another record has fails with no change; when the merge does not throw first, the failure is the unique index's 500 |
| UserCtrl.UpdateProfileSaves | controllers/userCtrl.js:155-224 | when the body has addresses or the record has none, and the email is free, the updated record is saved and returned, and the collection stays valid |
| UserCtrl.UpdateProfileCorrected | controllers/userCtrl.js:155-228 | updateProfile with the corrected merge |
| UserCtrl.UpdateProfileCorrectedKeepsAddresses | controllers/userCtrl.js:167-201 | with the corrected merge, an update without addresses and with a free email saves the new fields and keeps every address |
| UserCtrl.DeleteProfileSpec | controllers/userCtrl.js:240-258 | the record is gone afterwards; success exactly when it was there |
| UserCtrl.HasAddress | controllers/userCtrl.js:267-275 | `some` over the stored addresses: one equals the body in all five fields |
| UserCtrl.CreateAddressSpec | controllers/userCtrl.js:262-302 | createAddress: null record 500, a duplicate 400, else the address appended and saved |
| UserCtrl.CreateAddressOutcome | controllers/userCtrl.js:262-302 | a duplicate body is refused with no change; any other is appended under the fresh id, nothing else changes, the save succeeds and the collection stays valid |
| UserCtrl.CreateAddressTwice | controllers/userCtrl.js:267-291 | the same five fields cannot be added twice |
| UserCtrl.PatchAddress | controllers/userCtrl.js:322 | `Object.assign`: each key the body has overwrites, the others stay |
| UserCtrl.PatchAddressLaws | controllers/userCtrl.js:322 | `Object.assign` of one body twice equals once; an empty body changes nothing |
| UserCtrl.UpdateAddressSpec | controllers/userCtrl.js:304-334 | updateAddress: null record 500, an unknown address 404, else the found entry patched and saved |
| UserCtrl.UpdateAddressOutcome | controllers/userCtrl.js:304-334 | an unknown address id gets 404 with no change; otherwise only the first entry with that id changes, keeping its id and position, and the collection stays valid |
| UserCtrl.UpdateAddressIdempotent | controllers/userCtrl.js:311-324 | sending one address update twice leaves the collection as once |
| UserCtrl.IndexOfUpdate | controllers/userCtrl.js:311-322 | patching the found entry keeps it the first with its id |
| UserCtrl.DeleteAddressSpec | controllers/userCtrl.js:336-355 | deleteAddress: null record 500, else the filtered list saved |
| UserCtrl.DeleteAddressOutcome | controllers/userCtrl.js:336-355 | any existing record succeeds, keeping exactly the addresses with another id and changing nothing else; an id no address has leaves the collection as it was |
| UserCtrl.DeleteAddressIdempotent | controllers/userCtrl.js:341-345 | deleting an address twice leaves the collection as once |
| UserCtrl.Matches | controllers/userCtrl.js:378-382 | corrected comparison: the body's email, lower-cased, or its number equals the stored sub-user's |
| UserCtrl.Collides | controllers/userCtrl.js:378-382 | corrected check: some stored sub-user, other than the excluded one, matches the body |
| UserCtrl.MatchesAsWritten | controllers/userCtrl.js:379-381 | the as-written comparison: the stored email equals the body's email as it came, or the numbers are equal |
| UserCtrl.CollidesAsWritten | controllers/userCtrl.js:423-428 | the as-written `find`: some stored sub-user, other than the excluded one, matches the body as it came |
| UserCtrl.ChecksAgreeOnLowerCase | controllers/userCtrl.js:378-382 | for a lower-case body email the as-written and corrected checks agree |
| UserCtrl.NewSubUser | controllers/userCtrl.js:392 | the pushed sub-user has a lower-cased email and is complete exactly when all three fields are given |
| UserCtrl.PatchSubUser | controllers/userCtrl.js:438 | `Object.assign` keeps the sub-user's id and a lower-cased email |
| UserCtrl.PushKeepsUnique | controllers/userCtrl.js:378-392 | a body that the corrected check passes can be appended under a fresh id without two sub-users sharing an id, email or number |
| UserCtrl.PatchKeepsUnique | controllers/userCtrl.js:423-438 | a patch that the corrected check passes keeps the sub-users pairwise distinct |
| UserCtrl.AsWrittenCheckAdmitsDuplicateEmail | controllers/userCtrl.js:378-382 | the as-written check lets "A@x" through beside "a@x", and the setter then stores one email twice |
| UserCtrl.CreateSubUserSpec | controllers/userCtrl.js:372-403 | createSubUser as written: null record 500, a collision by the raw comparison 400, else the body appended and saved |
| UserCtrl.PushSubUser | controllers/userCtrl.js:392-393 | the push and save: the body appended as a sub-user, then the save's outcome |
| UserCtrl.CreateSubUserCorrected | controllers/userCtrl.js:372-403 | createSubUser with the corrected, lower-casing check |
| UserCtrl.AsWrittenCreateStoresDuplicate | controllers/userCtrl.js:372-399 | on a record holding "a@x", the handler as written saves the body "A@x" with 200 and the record then holds one email twice; the corrected handler refuses it with 400 |
| UserCtrl.CreateSubUserOutcome | controllers/userCtrl.js:378-398 | a body the as-written check catches gets 400 with no change; otherwise success exactly when the body is complete, appending the new sub-user, else 500 ValidationError and no change |
| UserCtrl.UpdateSubUserSpec | controllers/userCtrl.js:405-450 | updateSubUser as written: null record 500, unknown sub-user 404, a collision by the raw comparison 400, else the sub-user patched and saved |
| UserCtrl.PatchSubUserAt | controllers/userCtrl.js:438-440 | the `Object.assign` on the found sub-user, then the save's outcome |
| UserCtrl.PatchSubUserAtOutcome | controllers/userCtrl.js:438-446 | the save succeeds exactly when the patched sub-user is complete; then only that entry changes, keeping its id and position; else the validator's 500 and no change |
| UserCtrl.UpdateSubUserOutcome | controllers/userCtrl.js:412-446 | an unknown sub-user gets 404 and a body the raw check catches 400, both with no change; otherwise the first entry with the id is patched, and success holds exactly when the patched sub-user is complete |
| UserCtrl.UpdateSubUserCorrected | controllers/userCtrl.js:405-450 | updateSubUser with the corrected, lower-casing check |
| UserCtrl.DeleteSubUserSpec | controllers/userCtrl.js:453-472 | deleteSubUser: null record 500, else the filtered list saved |
| UserCtrl.WithoutKeepsRecordValid | controllers/userCtrl.js:458-460 | removing sub-users keeps the record valid |
| UserCtrl.PushSubUserKeepsValid | controllers/userCtrl.js:392-393 | appending a sub-user keeps the collection valid, whether or not the save goes through |
| UserCtrl.PatchSubUserKeepsValid | controllers/userCtrl.js:438-440 | patching a sub-user keeps the collection valid |
| UserCtrl.CreateSubUserKeepsValid | controllers/userCtrl.js:372-403 | createSubUser as written keeps the collection valid (ids, validators, lower-case and unique record emails) |
| UserCtrl.UpdateSubUserKeepsValid | controllers/userCtrl.js:405-450 | updateSubUser as written keeps the collection valid |
| UserCtrl.CreateSubUserCorrectedKeepsUnique | controllers/userCtrl.js:372-403 | the corrected createSubUser, with a fresh id, keeps the collection valid and no record with two sub-users sharing an id, email or number |
| UserCtrl.UpdateSubUserCorrectedKeepsUnique | controllers/userCtrl.js:405-450 | the corrected updateSubUser keeps the collection valid and the sub-users of every record distinct |
| UserCtrl.DeleteSubUserKeepsValid | controllers/userCtrl.js:453-472 | deleteSubUser keeps the collection valid and succeeds for any existing record |
| UserCtrl.DeleteSubUserKeepsUnique | controllers/userCtrl.js:458-460 | deleting sub-users never makes two of them share an id, an email or a number |
| UserCtrl.DeleteSubUserIdempotent | controllers/userCtrl.js:458-462 | deleting a sub-user twice leaves the collection as once |
| UserCtrl.Register | controllers/userCtrl.js:8-57 | the method's reply, mail and new collection are RegisterSpec's |
| UserCtrl.SendOtpCtrl | controllers/userCtrl.js:59-95 | the method's reply, mail and new collection are SendOtpSpec's |
| UserCtrl.Login | controllers/userCtrl.js:97-141 | the method's reply and new collection are LoginSpec's |
| UserCtrl.UpdateProfile | controllers/userCtrl.js:155-228 | the method's reply and new collection are UpdateProfileSpec's |
| UserCtrl.DeleteProfile | controllers/userCtrl.js:240-258 | the method's reply and new collection are DeleteProfileSpec's |
| UserCtrl.CreateAddress | controllers/userCtrl.js:262-302 | the method's reply and new collection are CreateAddressSpec's |
| UserCtrl.UpdateAddress | controllers/userCtrl.js:304-334 | the method's reply and new collection are UpdateAddressSpec's |
| UserCtrl.DeleteAddress | controllers/userCtrl.js:336-355 | the method's reply and new collection are DeleteAddressSpec's |
| UserCtrl.CreateSubUser | controllers/userCtrl.js:372-403 | the method's reply and new collection are CreateSubUserSpec's |
| UserCtrl.UpdateSubUser | controllers/userCtrl.js:405-450 | the method's reply and new collection are UpdateSubUserSpec's |
| UserCtrl.DeleteSubUser | controllers/userCtrl.js:453-472 | the method's reply and new collection are DeleteSubUserSpec's |

## Left out

- The avatar upload to Cloudinary and the removal of `./tmp` in updateProfile (controllers/userCtrl.js:173-181): they are foreign calls with file-system effects.
- `JSON.parse` of a string `addresses` field: the body's address is taken as already parsed. An array of addresses in the body is not modelled.
- An `_id` key in the body of createAddress, updateAddress, createSubUser or updateSubUser, and the ObjectId cast of ids: ids are strings. An empty `_id` is treated as absent. A createSubUser body with its own `_id` can give two sub-users one id in the code; the model always uses the fresh id.
- Database faults other than the validators and the unique index, `maxTimeMS`, and the `MongoTimeoutError` branch of register (controllers/userCtrl.js:14, 45-56): store I/O is not modelled.
- Concurrent requests: each request runs alone, and the race between a reissue and a verify is not modelled.
- Console logging, `logout`, and the read-only handlers `getMyProfile`, `getAddress` and `getSubUser`: they change no state.
- routes/userRoute.js, app.js and config/database.js are not part of this model. They only register routes and connect to the database.
- `sendMail`, `jwt.sign` and `jwt.verify` are opaque: a delivery verdict, a signing function and a decode result. Signatures and the library's own expiry check are not modelled.
- `createdAt`/`updatedAt` timestamps and the avatar field of the record.
- Request fields of an unexpected JSON type: emails are strings, a missing register email is not modelled, the profile number is an integer, and address fields and the sub-user `number` are strings. A sub-user `number` sent as a JSON number never `===` the stored String in the code; the model does not cover that case. Numbers are integers; floating point is not modelled.
- Js.Lower: only ASCII letters are lower-cased. JavaScript's full Unicode case mapping is not modelled.
- The comparison of a Date with null in login is modelled as the null coercing to 0, and dates are integer milliseconds.
- UserCtrl.UpdateProfile: the method computes the updated record with `Profiled` in one step rather than one field assignment at a time.

## Findings

The handlers in the Model table follow the code as written. Each corrected
member below is modelled beside its as-written counterpart, and the intended
property is proved about it.

| source | as written | input that shows it | evidently intended | confidence | as-written member | corrected member |
|---|---|---|---|---|---|---|
| models/userModel.js:73-76 | `expiresIn: 2*24*60*60*1000` is a millisecond count, but jsonwebtoken reads a numeric `expiresIn` as seconds | a token signed at t carries `exp` ≈ t/1000 + 172800000, so it still opens the gate at t + 4 days, after the cookie expired at t + 2 days | the token expires with its two-day cookie (`expiresIn` of 172800 seconds) | not executed | UserModel.JwtClaimsAsWritten, Tokens.SendToken, Auth.SessionRoundTrip | UserModel.JwtClaimsFor, Tokens.SendTokenCorrected, Auth.SessionRoundTripCorrected |
| controllers/userCtrl.js:378-382, 423-428 | the sub-user check compares the stored, lower-cased email with the body's email as it came | stored sub-user "a@x", body email "A@x" with a new number: the check passes and the setter stores "a@x" twice | no two sub-users share an email, in any letter case | not executed | UserCtrl.CollidesAsWritten, UserCtrl.AsWrittenCheckAdmitsDuplicateEmail, UserCtrl.AsWrittenCreateStoresDuplicate | UserCtrl.Collides, UserCtrl.CreateSubUserCorrectedKeepsUnique, UserCtrl.UpdateSubUserCorrectedKeepsUnique |
| controllers/userCtrl.js:183-188 | the `findIndex` callback reads `parsedAddresses._id` even when the body has no `addresses` | a profile update with only `name`, for a record with one address: TypeError, 500 | updating other fields leaves the addresses alone | not executed | UserCtrl.MergeAddressesAsWritten, UserCtrl.AbsentAddressesThrowAsWritten, UserCtrl.UpdateProfileWithoutAddressesThrows | UserCtrl.MergeAddresses, UserCtrl.UpdateProfileCorrected, UserCtrl.UpdateProfileCorrectedKeepsAddresses |
