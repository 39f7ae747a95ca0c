/** controllers/userCtrl.js: the request handlers. Each handler is stated
    twice: as a function from the collection before the request to a
    `Step` (the reply, the collection after it, the mail it sent), and as a
    method on the `Store` that does what the handler does, one query and
    one save at a time, and is proved to produce that very step. */
module UserCtrl {
  import opened Js
  import opened UserModel
  import opened Http
  import opened SendOtp
  import opened Tokens

  /** `sendMail(to, subject, text)`. */
  datatype Mail = Mail(to: string, subject: string, text: string)

  /** Whether the mail server accepted a message. */
  datatype Delivery = Delivered | DeliveryFailed(reason: string)

  /** One request: the reply, the collection afterwards, and the mail the
      handler tried to send, if any. */
  datatype Step = Step(resp: Response, users: map<Id, User>, mail: Option<Mail>)

  /** The mail register and sendOtpCtrl send. */
  function OtpMail(to: string, otp: string): Mail {
    Mail(to, "Verify your account", "Your OTP is " + otp)
  }

  /** `await user.save()` followed by the handler's success reply `ok`; a
      rejected save lands in the handler's `catch`. */
  function Commit(users: map<Id, User>, u: User, ok: Response): (s: Step)
    ensures s.mail.None?
    ensures SaveCheck(users, u).Done? ==> s.resp == ok && s.users == users[u.id := u]
    ensures SaveCheck(users, u).Threw? ==> s.resp == ServerError(SaveCheck(users, u).fault) && s.users == users
  {
    match SaveCheck(users, u)
    case Threw(f) => Step(ServerError(f), users, None)
    case Done => Step(ok, users[u.id := u], None)
  }

  /** A 200 reply that carries the saved record. */
  function Saved(text: string, u: User): Response {
    Response(200, true, Text(text), WithUser(u), None)
  }

  // =====================================================================
  // register

  /** `register` at time `now`, where `k` is generateOtp's random draw,
      `newId` the id the database gives the new record and `schemaDefault`
      the schema's otp_expiry default. An email some record already has (in
      any letter case) is refused; otherwise the unverified record is saved
      first and the code mailed afterwards, so a failed mail still leaves
      the record in place. */
  ghost function RegisterSpec(users: map<Id, User>, email: string, k: nat, now: int, newId: Id,
                              schemaDefault: int, delivery: Delivery): Step
    requires k < 900000
  {
    if EmailOwner(users, Lower(email)).Some? then
      Step(Reply(400, false, "Email already exists. Please use a different email."), users, None)
    else
      var u := NewUser(newId, email, Some(StoredOtp(k)), Some(now + OtpLifetimeMs), schemaDefault);
      match SaveCheck(users, u)
      case Threw(f) => Step(ServerError(f), users, None)
      case Done =>
        var m := OtpMail(email, GenerateOtp(k));
        match delivery
        case DeliveryFailed(reason) => Step(ServerError(MailFault(reason)), users[newId := u], Some(m))
        case Delivered => Step(Reply(200, true, "OTP sent to your email for verification"), users[newId := u], Some(m))
  }

  /** An email that is taken, in whatever letter case it is given, is
      refused with 400 and changes nothing. */
  lemma RegisterTakenEmail(users: map<Id, User>, email: string, k: nat, now: int, newId: Id,
                           schemaDefault: int, delivery: Delivery, id: Id)
    requires k < 900000 && id in users && users[id].email == Lower(email)
    ensures RegisterSpec(users, email, k, now, newId, schemaDefault, delivery) ==
      Step(Reply(400, false, "Email already exists. Please use a different email."), users, None)
  {
    assert EmailOwner(users, Lower(email)).Some?;
  }

  /** A free email gets a new unverified record holding the mailed code,
      expiring five minutes after `now`, and the collection stays valid. */
  lemma RegisterFreshEmail(users: map<Id, User>, email: string, k: nat, now: int, newId: Id,
                           schemaDefault: int, delivery: Delivery)
    requires StoreValid(users) && k < 900000 && newId !in users
    requires forall id | id in users :: users[id].email != Lower(email)
    ensures var s := RegisterSpec(users, email, k, now, newId, schemaDefault, delivery);
      && s.users.Keys == users.Keys + {newId}
      && (forall id | id in users :: s.users[id] == users[id])
      && s.users[newId].email == Lower(email) && !s.users[newId].verified
      && s.users[newId].otp == Some(StoredOtp(k)) && s.users[newId].otpExpiry == Some(now + OtpLifetimeMs)
      && s.mail == Some(Mail(email, "Verify your account", "Your OTP is " + NatToDecimal(s.users[newId].otp.value)))
      && (s.resp.success <==> delivery.Delivered?)
      && StoreValid(s.users)
  {
    var u := NewUser(newId, email, Some(StoredOtp(k)), Some(now + OtpLifetimeMs), schemaDefault);
    assert SaveCheck(users, u).Done?;
    SavePreservesValid(users, u);
  }

  // =====================================================================
  // sendOtpCtrl

  /** The record after sendOtpCtrl gives it a new code. */
  function Reissued(u: User, code: int, now: int): User {
    u.(otp := Some(code), otpExpiry := Some(now + OtpLifetimeMs))
  }

  /** `sendOtpCtrl` at `now` with random draw `k`: an unknown email is
      refused; otherwise the code is mailed first and stored afterwards, so
      a failed mail changes nothing. */
  ghost function SendOtpSpec(users: map<Id, User>, email: string, k: nat, now: int, delivery: Delivery): Step
    requires k < 900000
  {
    match EmailOwner(users, Lower(email))
    case None => Step(Reply(400, false, "Email does not exist. Please use a different email."), users, None)
    case Some(id) =>
      var m := OtpMail(email, GenerateOtp(k));
      match delivery
      case DeliveryFailed(reason) => Step(ServerError(MailFault(reason)), users, Some(m))
      case Delivered =>
        var u := Reissued(users[id], StoredOtp(k), now);
        var s := Commit(users, u, Reply(200, true, "OTP sent to your email for verification"));
        Step(s.resp, s.users, Some(m))
  }

  /** On a known email whose mail goes out, only that record changes, and
      only its code and expiry: the new code replaces the old one. */
  lemma SendOtpReissues(users: map<Id, User>, email: string, k: nat, now: int, id: Id)
    requires StoreValid(users) && k < 900000 && id in users && users[id].email == Lower(email)
    ensures var s := SendOtpSpec(users, email, k, now, Delivered);
      && s.resp == Reply(200, true, "OTP sent to your email for verification")
      && s.users == users[id := Reissued(users[id], StoredOtp(k), now)]
      && s.mail == Some(OtpMail(email, GenerateOtp(k)))
      && StoreValid(s.users)
  {
    OwnerIsUnique(users, id);
    var u := Reissued(users[id], StoredOtp(k), now);
    ResaveSucceeds(users, u);
    SavePreservesValid(users, u);
  }

  /** A failed mail or an unknown email leaves the collection as it was. */
  lemma SendOtpFailureChangesNothing(users: map<Id, User>, email: string, k: nat, now: int, delivery: Delivery)
    requires k < 900000
    requires delivery.DeliveryFailed? || EmailOwner(users, Lower(email)).None?
    ensures SendOtpSpec(users, email, k, now, delivery).users == users
    ensures !SendOtpSpec(users, email, k, now, delivery).resp.success
  {
  }

  // =====================================================================
  // login

  /** `user.otp_expiry < currentTimestamp`: a null expiry compares as 0. */
  function ExpiryValue(e: Option<int>): int {
    e.GetOr(0)
  }

  /** The record login saves when the code has expired. */
  function Cleared(u: User): User {
    u.(otp := None, otpExpiry := None)
  }

  /** `login` at `now`: both fields are required; the record is found by
      email; an expired code is cleared and refused; otherwise verifyUser
      decides, and on success sendToken answers with the session. */
  ghost function LoginSpec(users: map<Id, User>, email: string, otp: Json, now: int,
                           sign: JwtClaims -> Signature): Step
  {
    if email == "" || !Truthy(otp) then
      Step(Reply(400, false, "Please provide both email and OTP"), users, None)
    else match EmailOwner(users, Lower(email))
      case None => Step(Reply(404, false, "User not found"), users, None)
      case Some(id) =>
        var u := users[id];
        if ExpiryValue(u.otpExpiry) < now then
          var s := Commit(users, Cleared(u), Reply(400, false, "OTP has expired. Please request a new OTP."));
          s
        else
          var v := VerifyUserSpec(users, id, otp);
          if !v.result.success then Step(Response(400, false, v.result.message, NoData, None), v.users, None)
          else Step(SendToken(v.result.user, 200, "Login Successful", now, sign), v.users, None)
  }

  /** The early exits of login: a missing email or a falsy code is answered
      400 before any lookup, and an email no record has is answered 404;
      neither changes anything. */
  lemma LoginEarlyExits(users: map<Id, User>, email: string, otp: Json, now: int, sign: JwtClaims -> Signature)
    ensures email == "" || !Truthy(otp) ==>
      LoginSpec(users, email, otp, now, sign) == Step(Reply(400, false, "Please provide both email and OTP"), users, None)
    ensures email != "" && Truthy(otp) && (forall id | id in users :: users[id].email != Lower(email)) ==>
      LoginSpec(users, email, otp, now, sign) == Step(Reply(404, false, "User not found"), users, None)
  {
  }

  /** A record with no pending code (a verified one, or one whose expired
      code was cleared) cannot log in at all: the null expiry counts as 0,
      which is always in the past. */
  lemma NoPendingCodeCannotLogIn(users: map<Id, User>, email: string, otp: Json, now: int,
                                 sign: JwtClaims -> Signature, id: Id)
    requires StoreValid(users) && id in users && users[id].email == Lower(email)
    requires users[id].otpExpiry.None? && now > 0 && email != "" && Truthy(otp)
    ensures LoginSpec(users, email, otp, now, sign) ==
      Step(Reply(400, false, "OTP has expired. Please request a new OTP."), users, None)
  {
    OwnerIsUnique(users, id);
    ResaveSucceeds(users, Cleared(users[id]));
    assert Cleared(users[id]) == users[id];
    assert users[id := users[id]] == users;
  }

  /** A code that has expired is refused and cleared, so the record is left
      with no pending code; `verified` is left as it was. */
  lemma ExpiredCodeIsCleared(users: map<Id, User>, email: string, otp: Json, now: int,
                             sign: JwtClaims -> Signature, id: Id)
    requires StoreValid(users) && id in users && users[id].email == Lower(email)
    requires email != "" && Truthy(otp) && ExpiryValue(users[id].otpExpiry) < now
    ensures var s := LoginSpec(users, email, otp, now, sign);
      && s == Step(Reply(400, false, "OTP has expired. Please request a new OTP."), users[id := Cleared(users[id])], None)
      && s.users[id].otp.None? && s.users[id].otpExpiry.None? && s.users[id].verified == users[id].verified
  {
    OwnerIsUnique(users, id);
    ResaveSucceeds(users, Cleared(users[id]));
  }

  /** A login that opens a session leaves the record verified with its code
      spent, so the same request a second time is refused as expired. */
  lemma LoginIsSingleUse(users: map<Id, User>, email: string, otp: Json, now: int, later: int,
                         sign: JwtClaims -> Signature)
    requires StoreValid(users) && later > 0
    requires LoginSpec(users, email, otp, now, sign).resp.status == 200
    ensures var after := LoginSpec(users, email, otp, now, sign).users;
      LoginSpec(after, email, otp, later, sign) ==
        Step(Reply(400, false, "OTP has expired. Please request a new OTP."), after, None)
  {
    var id := EmailOwner(users, Lower(email)).value;
    var after := LoginSpec(users, email, otp, now, sign).users;
    SendOtp.VerifyUserOutcomes(users, id, otp);
    assert after == users[id := Consumed(users[id])];
    assert after[id].email == users[id].email;
    SaveKeepsOwners(users, Consumed(users[id]), Lower(email));
    NoPendingCodeCannotLogIn(after, email, otp, later, sign, id);
  }

  /** The code travels as text in the mail, but a code posted as a JSON
      string never logs in: the comparison with the stored Number is strict. */
  lemma StringCodeCannotLogIn(users: map<Id, User>, email: string, code: string, now: int,
                              sign: JwtClaims -> Signature)
    ensures !LoginSpec(users, email, Str(code), now, sign).resp.success
  {
    var o := EmailOwner(users, Lower(email));
    if email != "" && code != "" && o.Some? {
      StringCodeNeverVerifies(users, o.value, code);
    }
  }

  /** After sendOtpCtrl issues a different code, the previous one is
      refused even before it would have expired, while the new one logs in
      and is spent. */
  lemma ReissueInvalidatesOldCode(users: map<Id, User>, email: string, k: nat, now: int, later: int,
                                  previous: int, sign: JwtClaims -> Signature)
    requires StoreValid(users) && k < 900000 && EmailOwner(users, Lower(email)).Some?
    requires email != "" && previous != 0 && previous != StoredOtp(k) && later <= now + OtpLifetimeMs
    ensures var after := SendOtpSpec(users, email, k, now, Delivered).users;
      LoginSpec(after, email, Num(previous), later, sign) ==
        Step(Reply(400, false, "Invalid OTP"), after, None)
  ensures var id := EmailOwner(users, Lower(email)).value;
      var after := SendOtpSpec(users, email, k, now, Delivered).users;
      LoginSpec(after, email, Num(StoredOtp(k)), later, sign) ==
        Step(SendToken(Some(Consumed(after[id])), 200, "Login Successful", later, sign), after[id := Consumed(after[id])], None)
  {
    var id := EmailOwner(users, Lower(email)).value;
    SendOtpReissues(users, email, k, now, id);
    var u := Reissued(users[id], StoredOtp(k), now);
    SaveKeepsOwners(users, u, Lower(email));
    var after := SendOtpSpec(users, email, k, now, Delivered).users;
    LoginWithPendingCode(after, email, id, StoredOtp(k), later, sign);
  }

  /** The round trip the service exists for: a fresh registration followed,
      within five minutes, by a login with the mailed code verifies the
      record, spends the code and answers with sendToken's session. This
      holds whether or not the mail went out, since the record is saved
      before mailing. */
  lemma RegisterThenLogin(users: map<Id, User>, email: string, k: nat, now: int, newId: Id,
                          schemaDefault: int, delivery: Delivery, later: int, sign: JwtClaims -> Signature)
    requires StoreValid(users) && k < 900000 && newId !in users && email != ""
    requires forall id | id in users :: users[id].email != Lower(email)
    requires later <= now + OtpLifetimeMs
    ensures var r := RegisterSpec(users, email, k, now, newId, schemaDefault, delivery).users;
      var l := LoginSpec(r, email, Num(StoredOtp(k)), later, sign);
      && l.users == r[newId := Consumed(r[newId])]
      && l.users[newId].verified && l.users[newId].otp.None?
      && l.resp == SendToken(Some(Consumed(r[newId])), 200, "Login Successful", later, sign)
  {
    RegisterFreshEmail(users, email, k, now, newId, schemaDefault, delivery);
    var r := RegisterSpec(users, email, k, now, newId, schemaDefault, delivery).users;
    LoginWithPendingCode(r, email, newId, StoredOtp(k), later, sign);
  }

  /** The happy path of login: the pending code of the record with that
      email, before its expiry, verifies the record, spends the code and
      opens a session. */
  lemma LoginWithPendingCode(users: map<Id, User>, email: string, id: Id, code: int, now: int,
                             sign: JwtClaims -> Signature)
    requires StoreValid(users) && id in users && users[id].email == Lower(email) && email != ""
    requires users[id].otp == Some(code) && code != 0 && ExpiryValue(users[id].otpExpiry) >= now
    ensures LoginSpec(users, email, Num(code), now, sign) ==
      Step(SendToken(Some(Consumed(users[id])), 200, "Login Successful", now, sign), users[id := Consumed(users[id])], None)
  {
    OwnerIsUnique(users, id);
    SendOtp.VerifyUserOutcomes(users, id, Num(code));
  }

  /** The TTL index is on otp_expiry, which sendOtpCtrl sets on verified
      records too: an account that asks for a code and does not use it
      within five minutes is deleted outright, sub-users and addresses
      included. */
  lemma IdleReissuedAccountIsPurged(users: map<Id, User>, email: string, k: nat, now: int, later: int, id: Id)
    requires StoreValid(users) && k < 900000 && id in users && users[id].email == Lower(email)
    requires later >= now + OtpLifetimeMs
    ensures id !in Purge(SendOtpSpec(users, email, k, now, Delivered).users, later)
  {
    SendOtpReissues(users, email, k, now, id);
  }

  // =====================================================================
  // updateProfile

  /** The `addresses` entry of an updateProfile body, once parsed: an
      optional `_id` and the five fields, None for each one left out. */
  datatype AddressInput = AddressInput(id: Option<Id>, fields: AddressFields)

  /** The `_id` a new address gets: the one the body gave, else a fresh one. */
  function NewAddressId(a: AddressInput, freshId: Id): Id {
    if a.id.Some? && a.id.value != "" then a.id.value else freshId
  }

  /** The address merge of updateProfile. An entry whose `_id` matches the
      body's has its five fields overwritten, unset ones included; when none
      matches, the body's address is cast to a one-element array that
      replaces the whole list. A body without addresses leaves the list
      alone. */
  function MergeAddresses(current: seq<Address>, input: Option<AddressInput>, freshId: Id): (r: seq<Address>)
    ensures input.None? ==> r == current
    ensures input.Some? && IndexOf(current, input.value.id.GetOr("")) != -1 ==>
      var i := IndexOf(current, input.value.id.GetOr(""));
      && |r| == |current| && r[i].id == current[i].id && r[i].fields == input.value.fields
      && forall j | 0 <= j < |r| && j != i :: r[j] == current[j]
    ensures input.Some? && IndexOf(current, input.value.id.GetOr("")) == -1 ==>
      r == [Subdoc(NewAddressId(input.value, freshId), input.value.fields)]
  {
    if input.None? then current
    else
      var a := input.value;
      var i := IndexOf(current, a.id.GetOr(""));
      if i != -1 then current[i := Subdoc(current[i].id, a.fields)]
      else [Subdoc(NewAddressId(a, freshId), a.fields)]
  }

  /** The merge as written: the `findIndex` callback reads
      `parsedAddresses._id` for every stored address, so a body without
      addresses throws a TypeError as soon as the list is non-empty. */
  function MergeAddressesAsWritten(current: seq<Address>, input: Option<AddressInput>, freshId: Id): (r: Option<seq<Address>>)
    ensures r.None? <==> input.None? && current != []
    ensures r.Some? ==> r.value == MergeAddresses(current, input, freshId)
  {
    if input.None? && current != [] then None
    else if input.None? then Some([])
    else Some(MergeAddresses(current, input, freshId))
  }

  /** The failure the as-written merge shows: a profile update that only
      changes the name throws for any record that has an address, where the
      corrected merge keeps the addresses. */
  lemma AbsentAddressesThrowAsWritten(current: seq<Address>, freshId: Id)
    requires current != []
    ensures MergeAddressesAsWritten(current, None, freshId).None?
    ensures MergeAddresses(current, None, freshId) == current
  {
  }

  /** `if (v) user.f = v` for the string fields. */
  function IfGiven(v: Option<string>, current: Option<string>): Option<string> {
    if v.Some? && v.value != "" then v else current
  }

  /** The record updateProfile saves: each truthy field overwrites (the
      email through the lower-case setter), the rest stay, and the address
      list becomes `merged`, the outcome of the merge. */
  function Profiled(u: User, name: Option<string>, email: Option<string>, number: Option<int>,
                    merged: seq<Address>): (r: User)
    ensures r.id == u.id && r.subUsers == u.subUsers && r.verified == u.verified
    ensures r.otp == u.otp && r.otpExpiry == u.otpExpiry
    ensures r.name == (if name.Some? && name.value != "" then name else u.name)
    ensures r.email == (if email.Some? && email.value != "" then Lower(email.value) else u.email)
    ensures r.number == (if number.Some? && number.value != 0 then number else u.number)
    ensures r.addresses == merged
  {
    u.(name := IfGiven(name, u.name),
       email := if email.Some? && email.value != "" then Lower(email.value) else u.email,
       number := if number.Some? && number.value != 0 then number else u.number,
       addresses := merged)
  }

  /** The profile fields do not touch what Normalised constrains, except
      the email, which goes through the setter. */
  lemma ProfiledNormalised(u: User, name: Option<string>, email: Option<string>, number: Option<int>,
                           merged: seq<Address>)
    requires Normalised(u)
    ensures Normalised(Profiled(u, name, email, number, merged))
  {
  }

  /** `updateProfile` for the record `userId` (the avatar upload aside): the
      fields are assigned, then the addresses merged as written, so a body
      without addresses throws for a record that has one, and nothing is
      saved. */
  function UpdateProfileSpec(users: map<Id, User>, userId: Id, name: Option<string>, email: Option<string>,
                             number: Option<int>, addresses: Option<AddressInput>, freshId: Id): Step
  {
    if userId !in users then Step(Reply(404, false, "User not found"), users, None)
    else match MergeAddressesAsWritten(users[userId].addresses, addresses, freshId)
      case None => Step(ServerError(UndefinedAddresses), users, None)
      case Some(merged) =>
        var u := Profiled(users[userId], name, email, number, merged);
        Commit(users, u, Saved("Profile Updated successfully", u))
  }

  /** A profile update whose body has no addresses fails with the caught
      TypeError for every record that has an address, and changes nothing. */
  lemma UpdateProfileWithoutAddressesThrows(users: map<Id, User>, userId: Id, name: Option<string>,
                                            email: Option<string>, number: Option<int>, freshId: Id)
    requires userId in users && users[userId].addresses != []
    ensures UpdateProfileSpec(users, userId, name, email, number, None, freshId) ==
      Step(ServerError(UndefinedAddresses), users, None)
  {
  }

  /** Changing one's email to one another record has is refused by the
      unique index, with a 500, and nothing changes. */
  lemma ProfileEmailTaken(users: map<Id, User>, userId: Id, name: Option<string>, email: string,
                          number: Option<int>, addresses: Option<AddressInput>, freshId: Id, other: Id)
    requires StoreValid(users) && userId in users && other in users && other != userId
    requires email != "" && users[other].email == Lower(email)
    ensures UpdateProfileSpec(users, userId, name, Some(email), number, addresses, freshId).users == users
    ensures !UpdateProfileSpec(users, userId, name, Some(email), number, addresses, freshId).resp.success
    ensures addresses.Some? || users[userId].addresses == [] ==>
      UpdateProfileSpec(users, userId, name, Some(email), number, addresses, freshId) ==
        Step(ServerError(DuplicateKey), users, None)
  {
    var m := MergeAddressesAsWritten(users[userId].addresses, addresses, freshId);
    if m.Some? {
      var u := Profiled(users[userId], name, Some(email), number, m.value);
      assert SaveCheck(users, u) == Threw(DuplicateKey);
    }
  }

  /** Otherwise, when the body has addresses or the record has none, the
      update is saved with the merged addresses and the collection stays
      valid. */
  lemma UpdateProfileSaves(users: map<Id, User>, userId: Id, name: Option<string>, email: Option<string>,
                           number: Option<int>, addresses: Option<AddressInput>, freshId: Id)
    requires StoreValid(users) && userId in users
    requires addresses.Some? || users[userId].addresses == []
    requires email.Some? && email.value != "" ==>
      forall id | id in users && id != userId :: users[id].email != Lower(email.value)
    ensures var u := Profiled(users[userId], name, email, number, MergeAddresses(users[userId].addresses, addresses, freshId));
      var s := UpdateProfileSpec(users, userId, name, email, number, addresses, freshId);
      s == Step(Saved("Profile Updated successfully", u), users[userId := u], None) && StoreValid(s.users)
  {
    var u := Profiled(users[userId], name, email, number, MergeAddresses(users[userId].addresses, addresses, freshId));
    assert RecordValid(users[userId]);
    assert SaveCheck(users, u).Done?;
    SavePreservesValid(users, u);
  }

  /** updateProfile with the corrected merge, which leaves the addresses
      alone when the body has none. */
  function UpdateProfileCorrected(users: map<Id, User>, userId: Id, name: Option<string>, email: Option<string>,
                                  number: Option<int>, addresses: Option<AddressInput>, freshId: Id): Step
  {
    if userId !in users then Step(Reply(404, false, "User not found"), users, None)
    else
      var u := Profiled(users[userId], name, email, number, MergeAddresses(users[userId].addresses, addresses, freshId));
      Commit(users, u, Saved("Profile Updated successfully", u))
  }

  /** With the corrected merge, a profile update without addresses whose
      email is free saves the new fields and keeps every address. */
  lemma UpdateProfileCorrectedKeepsAddresses(users: map<Id, User>, userId: Id, name: Option<string>,
                                             email: Option<string>, number: Option<int>, freshId: Id)
    requires StoreValid(users) && userId in users
    requires email.Some? && email.value != "" ==>
      forall id | id in users && id != userId :: users[id].email != Lower(email.value)
    ensures var s := UpdateProfileCorrected(users, userId, name, email, number, None, freshId);
      && s.resp.success && s.users.Keys == users.Keys
      && s.users[userId].addresses == users[userId].addresses
      && s.users[userId] == Profiled(users[userId], name, email, number, users[userId].addresses)
      && (forall id | id in users && id != userId :: s.users[id] == users[id])
      && StoreValid(s.users)
  {
    var u := Profiled(users[userId], name, email, number, users[userId].addresses);
    assert RecordValid(users[userId]);
    assert SaveCheck(users, u).Done?;
    SavePreservesValid(users, u);
  }

  // =====================================================================
  // deleteProfile

  function DeleteProfileSpec(users: map<Id, User>, userId: Id): (s: Step)
    ensures s.users == users - {userId} && userId !in s.users
    ensures s.resp.success <==> userId in users
  {
    if userId !in users then Step(Reply(404, false, "User not found or already deleted"), users, None)
    else Step(Reply(200, true, "User profile deleted successfully"), users - {userId}, None)
  }

  // =====================================================================
  // Addresses

  /** `user.addresses.some(...)`: a stored address equal to the body in all
      five fields, an unset field matching only an unset one. */
  predicate HasAddress(list: seq<Address>, fields: AddressFields) {
    exists i | 0 <= i < |list| :: list[i].fields == fields
  }

  /** `createAddress`: a record that is not there is read as null and the
      handler throws; an address equal to a stored one is refused; the new
      one is appended at the end. */
  function CreateAddressSpec(users: map<Id, User>, userId: Id, fields: AddressFields, freshId: Id): Step {
    if userId !in users then Step(ServerError(NullUser), users, None)
    else
      var u := users[userId];
      if HasAddress(u.addresses, fields) then
        Step(Reply(400, false, "This address already exists in your profile."), users, None)
      else
        var w := u.(addresses := u.addresses + [Subdoc(freshId, fields)]);
        Commit(users, w, Saved("Address created successfully", w))
  }

  /** The same address cannot be added twice, whatever fresh id the second
      attempt would get. */
  lemma CreateAddressTwice(users: map<Id, User>, userId: Id, fields: AddressFields, id1: Id, id2: Id)
    requires StoreValid(users) && userId in users
    ensures var after := CreateAddressSpec(users, userId, fields, id1).users;
      CreateAddressSpec(after, userId, fields, id2) ==
        Step(Reply(400, false, "This address already exists in your profile."), after, None)
  {
    var u := users[userId];
    if !HasAddress(u.addresses, fields) {
      var w := u.(addresses := u.addresses + [Subdoc(id1, fields)]);
      ResaveSucceeds(users, w);
      var list := w.addresses;
      assert list[|list| - 1].fields == fields;
    }
  }

  /** createAddress on a valid collection: a body equal to a stored address
      is refused and changes nothing; any other is appended after the stored
      ones under the fresh id, nothing else in the record or the collection
      changes, the save succeeds and the collection stays valid. */
  lemma CreateAddressOutcome(users: map<Id, User>, userId: Id, fields: AddressFields, freshId: Id)
    requires StoreValid(users)
    ensures var s := CreateAddressSpec(users, userId, fields, freshId);
      && (userId !in users ==> s == Step(ServerError(NullUser), users, None))
      && (userId in users && HasAddress(users[userId].addresses, fields) ==>
            s == Step(Reply(400, false, "This address already exists in your profile."), users, None))
      && (userId in users && !HasAddress(users[userId].addresses, fields) ==>
            && s.resp.success && s.users.Keys == users.Keys
            && (forall id | id in users && id != userId :: s.users[id] == users[id])
            && s.users[userId] == users[userId].(addresses := users[userId].addresses + [Subdoc(freshId, fields)]))
      && StoreValid(s.users)
  {
    if userId in users && !HasAddress(users[userId].addresses, fields) {
      var u := users[userId];
      var w := u.(addresses := u.addresses + [Subdoc(freshId, fields)]);
      assert RecordValid(u);
      ResaveSucceeds(users, w);
      SavePreservesValid(users, w);
    }
  }

  /** The fields an `Object.assign(address, body)` leaves: each key the body
      has overwrites, the others stay. */
  function PatchAddress(a: AddressFields, p: AddressFields): AddressFields {
    AddressFields(
      if p.houseNumber.Some? then p.houseNumber else a.houseNumber,
      if p.street.Some? then p.street else a.street,
      if p.city.Some? then p.city else a.city,
      if p.state.Some? then p.state else a.state,
      if p.postalCode.Some? then p.postalCode else a.postalCode)
  }

  /** Assigning the same body twice is assigning it once, and an empty body
      changes nothing. */
  lemma PatchAddressLaws(a: AddressFields, p: AddressFields)
    ensures PatchAddress(PatchAddress(a, p), p) == PatchAddress(a, p)
    ensures PatchAddress(a, AddressFields(None, None, None, None, None)) == a
  {
  }

  /** `updateAddress`: the first entry with the route's id is patched in
      place; it keeps its id and its position. */
  function UpdateAddressSpec(users: map<Id, User>, userId: Id, addressId: Id, patch: AddressFields): Step {
    if userId !in users then Step(ServerError(NullUser), users, None)
    else
      var u := users[userId];
      var i := IndexOf(u.addresses, addressId);
      if i == -1 then Step(Reply(404, false, "Address not found"), users, None)
      else
        var a := u.addresses[i];
        var w := u.(addresses := u.addresses[i := Subdoc(a.id, PatchAddress(a.fields, patch))]);
        Commit(users, w, Saved("Address updated successfully", w))
  }

  /** Sending the same address update twice leaves the collection as one
      update does. */
  lemma UpdateAddressIdempotent(users: map<Id, User>, userId: Id, addressId: Id, patch: AddressFields)
    requires StoreValid(users)
    ensures var once := UpdateAddressSpec(users, userId, addressId, patch).users;
      UpdateAddressSpec(once, userId, addressId, patch).users == once
  {
    if userId in users {
      var u := users[userId];
      var i := IndexOf(u.addresses, addressId);
      if i != -1 {
        var a := u.addresses[i];
        var w := u.(addresses := u.addresses[i := Subdoc(a.id, PatchAddress(a.fields, patch))]);
        ResaveSucceeds(users, w);
        var once := users[userId := w];
        IndexOfUpdate(u.addresses, i, Subdoc(a.id, PatchAddress(a.fields, patch)), addressId);
        PatchAddressLaws(a.fields, patch);
        var w2 := w.(addresses := w.addresses[i := Subdoc(a.id, PatchAddress(PatchAddress(a.fields, patch), patch))]);
        assert w2 == w;
        assert once[userId := w2] == once;
        ResaveSucceeds(once, w2);
      }
    }
  }

  /** updateAddress on a valid collection: an id no address has gets 404
      and changes nothing; otherwise the save succeeds, and of the whole
      collection only the first address with that id changes, keeping its
      id and its position and taking the body's fields. */
  lemma UpdateAddressOutcome(users: map<Id, User>, userId: Id, addressId: Id, patch: AddressFields)
    requires StoreValid(users)
    ensures var s := UpdateAddressSpec(users, userId, addressId, patch);
      && (userId !in users ==> s == Step(ServerError(NullUser), users, None))
      && (userId in users && IndexOf(users[userId].addresses, addressId) == -1 ==>
            s == Step(Reply(404, false, "Address not found"), users, None))
      && (userId in users && IndexOf(users[userId].addresses, addressId) != -1 ==>
            var list := users[userId].addresses;
            var i := IndexOf(list, addressId);
            var after := s.users[userId].addresses;
            && s.resp.success && s.users.Keys == users.Keys
            && (forall id | id in users && id != userId :: s.users[id] == users[id])
            && s.users[userId] == users[userId].(addresses := after)
            && |after| == |list|
            && after[i] == Subdoc(addressId, PatchAddress(list[i].fields, patch))
            && (forall j | 0 <= j < |list| && j != i :: after[j] == list[j]))
      && StoreValid(s.users)
  {
    if userId in users {
      var u := users[userId];
      var i := IndexOf(u.addresses, addressId);
      if i != -1 {
        var a := u.addresses[i];
        var w := u.(addresses := u.addresses[i := Subdoc(a.id, PatchAddress(a.fields, patch))]);
        assert RecordValid(u);
        ResaveSucceeds(users, w);
        SavePreservesValid(users, w);
      }
    }
  }

  /** Replacing the first entry with an id by one with the same id keeps it
      the first. */
  lemma {:induction false} IndexOfUpdate<T>(s: seq<Subdoc<T>>, i: int, e: Subdoc<T>, id: Id)
    requires 0 <= i < |s| && IndexOf(s, id) == i && e.id == id
    ensures IndexOf(s[i := e], id) == i
  {
    var t := s[i := e];
    assert t[i].id == id;
    assert forall j | 0 <= j < i :: t[j].id != id by {
      forall j | 0 <= j < i ensures t[j].id != id {
        assert t[j] == s[j];
      }
    }
  }

  /** `deleteAddress`: every entry with the route's id goes; an id that no
      entry has still answers with success. */
  function DeleteAddressSpec(users: map<Id, User>, userId: Id, addressId: Id): Step {
    if userId !in users then Step(ServerError(NullUser), users, None)
    else
      var u := users[userId];
      var w := u.(addresses := Without(u.addresses, addressId));
      Commit(users, w, Saved("Address deleted successfully", w))
  }

  /** Deleting an address twice leaves the collection as deleting it once. */
  lemma DeleteAddressIdempotent(users: map<Id, User>, userId: Id, addressId: Id)
    requires StoreValid(users)
    ensures var once := DeleteAddressSpec(users, userId, addressId).users;
      DeleteAddressSpec(once, userId, addressId).users == once
  {
    if userId in users {
      var u := users[userId];
      var w := u.(addresses := Without(u.addresses, addressId));
      ResaveSucceeds(users, w);
      var once := users[userId := w];
      WithoutIdempotent(u.addresses, addressId);
      assert w.(addresses := Without(w.addresses, addressId)) == w;
      assert once[userId := w] == once;
      ResaveSucceeds(once, w);
    }
  }

  /** deleteAddress on a valid collection succeeds for every existing
      record: the kept addresses are exactly those with another id, nothing
      else changes, and an id that no address has leaves the collection as
      it was. */
  lemma DeleteAddressOutcome(users: map<Id, User>, userId: Id, addressId: Id)
    requires StoreValid(users)
    ensures var s := DeleteAddressSpec(users, userId, addressId);
      && (userId !in users ==> s == Step(ServerError(NullUser), users, None))
      && (userId in users ==>
            var after := s.users[userId].addresses;
            && s.resp.success && s.users.Keys == users.Keys
            && (forall id | id in users && id != userId :: s.users[id] == users[id])
            && s.users[userId] == users[userId].(addresses := after)
            && (forall a | a in after :: a in users[userId].addresses && a.id != addressId)
            && (forall a | a in users[userId].addresses && a.id != addressId :: a in after))
      && (userId in users && (forall j | 0 <= j < |users[userId].addresses| :: users[userId].addresses[j].id != addressId) ==>
            s.users == users)
      && StoreValid(s.users)
  {
    if userId in users {
      var u := users[userId];
      var w := u.(addresses := Without(u.addresses, addressId));
      assert RecordValid(u);
      ResaveSucceeds(users, w);
      SavePreservesValid(users, w);
      WithoutMembers(u.addresses, addressId);
      if forall j | 0 <= j < |u.addresses| :: u.addresses[j].id != addressId {
        WithoutAbsent(u.addresses, addressId);
        assert w == u;
        assert users[userId := w] == users;
      }
    }
  }

  // =====================================================================
  // Sub-users

  /** A sub-user body: each of the three fields, None when left out. */
  datatype SubUserInput = SubUserInput(name: Option<string>, email: Option<string>, number: Option<string>)

  /** `s.email === body.email || s.number === body.number`, with the body's
      email put through the same lower-casing the setter applies on save. A
      field the body left out matches nothing. */
  predicate Matches(s: SubUser, input: SubUserInput) {
    || (input.email.Some? && s.fields.email == Lower(input.email.value))
    || (input.number.Some? && s.fields.number == input.number.value)
  }

  /** A stored sub-user, other than the one with id `exclude`, that the body
      collides with. */
  predicate Collides(subs: seq<SubUser>, input: SubUserInput, exclude: Option<Id>) {
    exists i | 0 <= i < |subs| :: (exclude.None? || subs[i].id != exclude.value) && Matches(subs[i], input)
  }

  /** The comparison as written: the stored, lower-cased email against the
      body's email as it came. */
  predicate MatchesAsWritten(s: SubUser, input: SubUserInput) {
    || (input.email.Some? && s.fields.email == input.email.value)
    || (input.number.Some? && s.fields.number == input.number.value)
  }

  predicate CollidesAsWritten(subs: seq<SubUser>, input: SubUserInput, exclude: Option<Id>) {
    exists i | 0 <= i < |subs| :: (exclude.None? || subs[i].id != exclude.value) && MatchesAsWritten(subs[i], input)
  }

  /** `user.subUsers.push(body)`: a field left out is missing, which the
      `required` validator rejects like an empty one. */
  function NewSubUser(id: Id, input: SubUserInput): (s: SubUser)
    ensures s.id == id && IsLowerCase(s.fields.email)
    ensures SubUserComplete(s) <==>
      input.name.GetOr("") != "" && input.email.GetOr("") != "" && input.number.GetOr("") != ""
  {
    Subdoc(id, SubUserFields(input.name.GetOr(""), Lower(input.email.GetOr("")), input.number.GetOr("")))
  }

  /** `Object.assign(subUser, body)`. */
  function PatchSubUser(s: SubUser, p: SubUserInput): (r: SubUser)
    ensures r.id == s.id && (IsLowerCase(s.fields.email) ==> IsLowerCase(r.fields.email))
  {
    Subdoc(s.id, SubUserFields(
      p.name.GetOr(s.fields.name),
      if p.email.Some? then Lower(p.email.value) else s.fields.email,
      p.number.GetOr(s.fields.number)))
  }

  /** When the body's email is already lower-case, the comparison as
      written and the lower-casing one agree. */
  lemma ChecksAgreeOnLowerCase(subs: seq<SubUser>, input: SubUserInput, exclude: Option<Id>)
    requires input.email.Some? ==> IsLowerCase(input.email.value)
    ensures CollidesAsWritten(subs, input, exclude) <==> Collides(subs, input, exclude)
  {
    if input.email.Some? {
      var e := input.email.value;
      assert Lower(e) == e by {
        forall i | 0 <= i < |e| ensures Lower(e)[i] == e[i] {
          assert !IsUpper(e[i]);
        }
      }
    }
  }

  /** A body that collides with no stored sub-user can be appended under a
      fresh id without two sub-users sharing an id, an email or a number. */
  lemma PushKeepsUnique(subs: seq<SubUser>, id: Id, input: SubUserInput)
    requires SubUsersUnique(subs) && AllSubUsersComplete(subs)
    requires forall j | 0 <= j < |subs| :: subs[j].id != id
    requires !Collides(subs, input, None)
    ensures SubUsersUnique(subs + [NewSubUser(id, input)])
  {
    var r := subs + [NewSubUser(id, input)];
    forall i, j | 0 <= i < j < |r| ensures Distinct(r[i], r[j]) {
      if j == |subs| {
        assert r[i] == subs[i] && SubUserComplete(subs[i]);
        assert !Matches(subs[i], input);
      } else {
        assert r[i] == subs[i] && r[j] == subs[j];
      }
    }
  }

  /** A patch that collides with no other sub-user keeps them distinct. */
  lemma PatchKeepsUnique(subs: seq<SubUser>, i: int, p: SubUserInput)
    requires SubUsersUnique(subs) && 0 <= i < |subs|
    requires !Collides(subs, p, Some(subs[i].id))
    ensures SubUsersUnique(subs[i := PatchSubUser(subs[i], p)])
  {
    var r := subs[i := PatchSubUser(subs[i], p)];
    forall a, b | 0 <= a < b < |r| ensures Distinct(r[a], r[b]) {
      if a == i {
        assert Distinct(subs[i], subs[b]) && !Matches(subs[b], p);
      } else if b == i {
        assert Distinct(subs[a], subs[i]) && !Matches(subs[a], p);
      } else {
        assert r[a] == subs[a] && r[b] == subs[b];
      }
    }
  }

  /** The failure the as-written comparison shows: a body whose email
      differs from a stored sub-user's only in letter case passes the check,
      and the setter then stores the same email twice. */
  lemma AsWrittenCheckAdmitsDuplicateEmail()
    ensures var subs := [Subdoc("s1", SubUserFields("Ann", "a@x", "111"))];
      var input := SubUserInput(Some("Bob"), Some("A@x"), Some("222"));
      && !CollidesAsWritten(subs, input, None)
      && Collides(subs, input, None)
      && !SubUsersUnique(subs + [NewSubUser("s2", input)])
  {
    var subs := [Subdoc("s1", SubUserFields("Ann", "a@x", "111"))];
    var input := SubUserInput(Some("Bob"), Some("A@x"), Some("222"));
    var low := Lower("A@x");
    assert low[0] == 'a' && low[1] == '@' && low[2] == 'x';
    assert low == "a@x";
    assert Matches(subs[0], input);
    var r := subs + [NewSubUser("s2", input)];
    assert r[1].fields.email == low;
    assert !Distinct(r[0], r[1]);
  }

  /** createSubUser once its duplicate check has passed: the body is
      appended, and the save fails validation when a field is missing. */
  function PushSubUser(users: map<Id, User>, u: User, input: SubUserInput, freshId: Id): Step {
    var w := u.(subUsers := u.subUsers + [NewSubUser(freshId, input)]);
    Commit(users, w, Saved("Sub-user created successfully", w))
  }

  /** `createSubUser` as written: a body whose email, as it came, or whose
      number equals a stored sub-user's is refused; otherwise it is
      appended. */
  function CreateSubUserSpec(users: map<Id, User>, userId: Id, input: SubUserInput, freshId: Id): Step {
    if userId !in users then Step(ServerError(NullUser), users, None)
    else if CollidesAsWritten(users[userId].subUsers, input, None) then
      Step(Reply(400, false, "Sub-user with the same email or number already exists."), users, None)
    else PushSubUser(users, users[userId], input, freshId)
  }

  /** createSubUser with the body's email lower-cased before the
      comparison, as the setter lower-cases it before the save. */
  function CreateSubUserCorrected(users: map<Id, User>, userId: Id, input: SubUserInput, freshId: Id): Step {
    if userId !in users then Step(ServerError(NullUser), users, None)
    else if Collides(users[userId].subUsers, input, None) then
      Step(Reply(400, false, "Sub-user with the same email or number already exists."), users, None)
    else PushSubUser(users, users[userId], input, freshId)
  }

  /** On the handler as written, the witness above: the record holds "a@x",
      the body "A@x" is saved with 200, and the record then holds that
      email twice; the corrected handler refuses the body with 400. */
  lemma AsWrittenCreateStoresDuplicate()
    ensures var u := User("u", None, "e@x", None, [], [Subdoc("s1", SubUserFields("Ann", "a@x", "111"))], true, None, None);
      var users := map["u" := u];
      var input := SubUserInput(Some("Bob"), Some("A@x"), Some("222"));
      && SubUsersUniqueIn(users)
      && CreateSubUserSpec(users, "u", input, "s2").resp.status == 200
      && !SubUsersUniqueIn(CreateSubUserSpec(users, "u", input, "s2").users)
      && CreateSubUserCorrected(users, "u", input, "s2").resp.status == 400
  {
    var u := User("u", None, "e@x", None, [], [Subdoc("s1", SubUserFields("Ann", "a@x", "111"))], true, None, None);
    var users := map["u" := u];
    var input := SubUserInput(Some("Bob"), Some("A@x"), Some("222"));
    AsWrittenCheckAdmitsDuplicateEmail();
    var w := u.(subUsers := u.subUsers + [NewSubUser("s2", input)]);
    assert SubUserComplete(w.subUsers[0]) && SubUserComplete(w.subUsers[1]);
    assert AllSubUsersComplete(w.subUsers);
    assert SaveCheck(users, w).Done?;
    assert CreateSubUserSpec(users, "u", input, "s2").users["u"] == w;
  }

  /** The sub-user created is the body as given, lower-cased email aside,
      and only a complete body is saved; a colliding body is refused and
      changes nothing. */
  lemma CreateSubUserOutcome(users: map<Id, User>, userId: Id, input: SubUserInput, freshId: Id)
    requires StoreValid(users) && userId in users
    ensures var s := CreateSubUserSpec(users, userId, input, freshId);
      && (CollidesAsWritten(users[userId].subUsers, input, None) ==>
            s == Step(Reply(400, false, "Sub-user with the same email or number already exists."), users, None))
      && (!CollidesAsWritten(users[userId].subUsers, input, None) ==>
            && (s.resp.success <==> SubUserComplete(NewSubUser(freshId, input)))
            && (s.resp.success ==> s.users[userId].subUsers == users[userId].subUsers + [NewSubUser(freshId, input)])
            && (!s.resp.success ==> s.users == users && s.resp == ServerError(ValidationFault)))
  {
    var u := users[userId];
    var w := u.(subUsers := u.subUsers + [NewSubUser(freshId, input)]);
    assert RecordValid(u);
    assert w.subUsers[|u.subUsers|] == NewSubUser(freshId, input);
    assert forall j | 0 <= j < |u.subUsers| :: w.subUsers[j] == u.subUsers[j];
  }

  /** updateSubUser once the sub-user is found at `i` and the duplicate
      check has passed: the sub-user is patched in place. */
  function PatchSubUserAt(users: map<Id, User>, u: User, i: int, patch: SubUserInput): Step
    requires 0 <= i < |u.subUsers|
  {
    var w := u.(subUsers := u.subUsers[i := PatchSubUser(u.subUsers[i], patch)]);
    Commit(users, w, Saved("Sub-user updated successfully", w))
  }

  /** `updateSubUser` as written: the sub-user with the route's id is
      patched in place, unless the body's email, as it came, or its number
      equals another sub-user's. */
  function UpdateSubUserSpec(users: map<Id, User>, userId: Id, subId: Id, patch: SubUserInput): Step {
    if userId !in users then Step(ServerError(NullUser), users, None)
    else
      var u := users[userId];
      var i := IndexOf(u.subUsers, subId);
      if i == -1 then Step(Reply(404, false, "Sub-user not found"), users, None)
      else if CollidesAsWritten(u.subUsers, patch, Some(subId)) then
        Step(Reply(400, false, "A sub-user with the same email or number already exists"), users, None)
      else PatchSubUserAt(users, u, i, patch)
  }

  /** updateSubUser with the body's email lower-cased before the comparison. */
  function UpdateSubUserCorrected(users: map<Id, User>, userId: Id, subId: Id, patch: SubUserInput): Step {
    if userId !in users then Step(ServerError(NullUser), users, None)
    else
      var u := users[userId];
      var i := IndexOf(u.subUsers, subId);
      if i == -1 then Step(Reply(404, false, "Sub-user not found"), users, None)
      else if Collides(u.subUsers, patch, Some(subId)) then
        Step(Reply(400, false, "A sub-user with the same email or number already exists"), users, None)
      else PatchSubUserAt(users, u, i, patch)
  }

  /** Patching the sub-user at `i` of a valid record saves exactly when the
      patched sub-user is complete, and then of the whole collection only
      that entry changes, keeping its id and its position; otherwise the
      validator's 500 changes nothing. */
  lemma PatchSubUserAtOutcome(users: map<Id, User>, userId: Id, i: int, patch: SubUserInput)
    requires StoreValid(users) && userId in users && 0 <= i < |users[userId].subUsers|
    ensures var s := PatchSubUserAt(users, users[userId], i, patch);
      var list := users[userId].subUsers;
      && (s.resp.success <==> SubUserComplete(PatchSubUser(list[i], patch)))
      && (!s.resp.success ==> s.users == users && s.resp == ServerError(ValidationFault))
      && (s.resp.success ==>
            var after := s.users[userId].subUsers;
            && s.users.Keys == users.Keys
            && (forall id | id in users && id != userId :: s.users[id] == users[id])
            && s.users[userId] == users[userId].(subUsers := after)
            && |after| == |list|
            && after[i] == PatchSubUser(list[i], patch) && after[i].id == list[i].id
            && (forall j | 0 <= j < |list| && j != i :: after[j] == list[j]))
  {
    var u := users[userId];
    assert RecordValid(u);
    var w := u.subUsers[i := PatchSubUser(u.subUsers[i], patch)];
    assert forall j | 0 <= j < |w| && j != i :: w[j] == u.subUsers[j];
    assert w[i] == PatchSubUser(u.subUsers[i], patch);
  }

  /** updateSubUser as written on a valid collection: an unknown sub-user
      gets 404 and a body the raw check catches 400, both with no change;
      otherwise the target entry, the first with the route's id, is patched
      as PatchSubUserAtOutcome describes; the collection stays valid. */
  lemma UpdateSubUserOutcome(users: map<Id, User>, userId: Id, subId: Id, patch: SubUserInput)
    requires StoreValid(users)
    ensures var s := UpdateSubUserSpec(users, userId, subId, patch);
      && (userId !in users ==> s == Step(ServerError(NullUser), users, None))
      && (userId in users && IndexOf(users[userId].subUsers, subId) == -1 ==>
            s == Step(Reply(404, false, "Sub-user not found"), users, None))
      && (userId in users && IndexOf(users[userId].subUsers, subId) != -1 &&
          CollidesAsWritten(users[userId].subUsers, patch, Some(subId)) ==>
            s == Step(Reply(400, false, "A sub-user with the same email or number already exists"), users, None))
      && (userId in users && IndexOf(users[userId].subUsers, subId) != -1 &&
          !CollidesAsWritten(users[userId].subUsers, patch, Some(subId)) ==>
            && users[userId].subUsers[IndexOf(users[userId].subUsers, subId)].id == subId
            && s == PatchSubUserAt(users, users[userId], IndexOf(users[userId].subUsers, subId), patch)
            && (s.resp.success <==> SubUserComplete(PatchSubUser(users[userId].subUsers[IndexOf(users[userId].subUsers, subId)], patch))))
      && StoreValid(s.users)
  {
    UpdateSubUserKeepsValid(users, userId, subId, patch);
    if userId in users {
      var i := IndexOf(users[userId].subUsers, subId);
      if i != -1 {
        PatchSubUserAtOutcome(users, userId, i, patch);
      }
    }
  }

  /** `deleteSubUser`: every sub-user with the route's id goes. */
  function DeleteSubUserSpec(users: map<Id, User>, userId: Id, subId: Id): Step {
    if userId !in users then Step(ServerError(NullUser), users, None)
    else
      var u := users[userId];
      var w := u.(subUsers := Without(u.subUsers, subId));
      Commit(users, w, Saved("Sub-user deleted successfully", w))
  }

  /** Filtering keeps every sub-user's email lower-case and every one complete. */
  lemma WithoutKeepsRecordValid(u: User, subId: Id)
    requires RecordValid(u)
    ensures RecordValid(u.(subUsers := Without(u.subUsers, subId)))
  {
    var r := Without(u.subUsers, subId);
    WithoutMembers(u.subUsers, subId);
    forall i | 0 <= i < |r| ensures IsLowerCase(r[i].fields.email) && SubUserComplete(r[i]) {
      assert r[i] in u.subUsers;
    }
  }

  /** Appending a sub-user keeps the collection valid, whether or not the
      save goes through. */
  lemma PushSubUserKeepsValid(users: map<Id, User>, userId: Id, input: SubUserInput, freshId: Id)
    requires StoreValid(users) && userId in users
    ensures StoreValid(PushSubUser(users, users[userId], input, freshId).users)
  {
    var u := users[userId];
    assert RecordValid(u);
    var w := u.(subUsers := u.subUsers + [NewSubUser(freshId, input)]);
    assert forall j | 0 <= j < |u.subUsers| :: w.subUsers[j] == u.subUsers[j];
    assert Normalised(w);
    if SaveCheck(users, w).Done? { SavePreservesValid(users, w); }
  }

  /** So does patching one. */
  lemma PatchSubUserKeepsValid(users: map<Id, User>, userId: Id, i: int, patch: SubUserInput)
    requires StoreValid(users) && userId in users && 0 <= i < |users[userId].subUsers|
    ensures StoreValid(PatchSubUserAt(users, users[userId], i, patch).users)
  {
    var u := users[userId];
    assert RecordValid(u);
    var w := u.(subUsers := u.subUsers[i := PatchSubUser(u.subUsers[i], patch)]);
    assert Normalised(w);
    if SaveCheck(users, w).Done? { SavePreservesValid(users, w); }
  }

  /** createSubUser as written keeps the collection valid. */
  lemma CreateSubUserKeepsValid(users: map<Id, User>, userId: Id, input: SubUserInput, freshId: Id)
    requires StoreValid(users)
    ensures StoreValid(CreateSubUserSpec(users, userId, input, freshId).users)
  {
    if userId in users { PushSubUserKeepsValid(users, userId, input, freshId); }
  }

  /** updateSubUser as written keeps the collection valid. */
  lemma UpdateSubUserKeepsValid(users: map<Id, User>, userId: Id, subId: Id, patch: SubUserInput)
    requires StoreValid(users)
    ensures StoreValid(UpdateSubUserSpec(users, userId, subId, patch).users)
  {
    if userId in users {
      var i := IndexOf(users[userId].subUsers, subId);
      if i != -1 { PatchSubUserKeepsValid(users, userId, i, patch); }
    }
  }

  /** The corrected createSubUser keeps the collection valid and, given the
      new sub-user's id is fresh, leaves no record with two sub-users that
      share an id, an email or a number. */
  lemma CreateSubUserCorrectedKeepsUnique(users: map<Id, User>, userId: Id, input: SubUserInput, freshId: Id)
    requires StoreValid(users) && SubUsersUniqueIn(users)
    requires userId in users ==> forall j | 0 <= j < |users[userId].subUsers| :: users[userId].subUsers[j].id != freshId
    ensures StoreValid(CreateSubUserCorrected(users, userId, input, freshId).users)
    ensures SubUsersUniqueIn(CreateSubUserCorrected(users, userId, input, freshId).users)
  {
    if userId in users && !Collides(users[userId].subUsers, input, None) {
      var u := users[userId];
      assert RecordValid(u);
      PushKeepsUnique(u.subUsers, freshId, input);
      PushSubUserKeepsValid(users, userId, input, freshId);
    }
  }

  /** And so does the corrected updateSubUser. */
  lemma UpdateSubUserCorrectedKeepsUnique(users: map<Id, User>, userId: Id, subId: Id, patch: SubUserInput)
    requires StoreValid(users) && SubUsersUniqueIn(users)
    ensures StoreValid(UpdateSubUserCorrected(users, userId, subId, patch).users)
    ensures SubUsersUniqueIn(UpdateSubUserCorrected(users, userId, subId, patch).users)
  {
    if userId in users {
      var u := users[userId];
      var i := IndexOf(u.subUsers, subId);
      if i != -1 && !Collides(u.subUsers, patch, Some(subId)) {
        PatchKeepsUnique(u.subUsers, i, patch);
        PatchSubUserKeepsValid(users, userId, i, patch);
      }
    }
  }

  /** deleteSubUser keeps the collection valid and always succeeds for an
      existing record. */
  lemma DeleteSubUserKeepsValid(users: map<Id, User>, userId: Id, subId: Id)
    requires StoreValid(users)
    ensures StoreValid(DeleteSubUserSpec(users, userId, subId).users)
    ensures userId in users ==> DeleteSubUserSpec(users, userId, subId).resp.success
  {
    if userId in users {
      var u := users[userId];
      var d := u.(subUsers := Without(u.subUsers, subId));
      WithoutKeepsRecordValid(u, subId);
      assert SaveCheck(users, d).Done?;
      SavePreservesValid(users, d);
    }
  }

  /** Deleting sub-users never makes two of them share an id, an email or
      a number. */
  lemma DeleteSubUserKeepsUnique(users: map<Id, User>, userId: Id, subId: Id)
    requires StoreValid(users) && SubUsersUniqueIn(users)
    ensures SubUsersUniqueIn(DeleteSubUserSpec(users, userId, subId).users)
  {
    if userId in users {
      WithoutKeepsUnique(users[userId].subUsers, subId);
    }
  }

  /** Deleting a sub-user twice leaves the collection as deleting it once. */
  lemma DeleteSubUserIdempotent(users: map<Id, User>, userId: Id, subId: Id)
    requires StoreValid(users)
    ensures var once := DeleteSubUserSpec(users, userId, subId).users;
      DeleteSubUserSpec(once, userId, subId).users == once
  {
    if userId in users {
      var u := users[userId];
      var w := u.(subUsers := Without(u.subUsers, subId));
      WithoutKeepsRecordValid(u, subId);
      assert SaveCheck(users, w).Done?;
      var once := users[userId := w];
      WithoutIdempotent(u.subUsers, subId);
      assert w.(subUsers := Without(w.subUsers, subId)) == w;
      assert once[userId := w] == once;
      SavePreservesValid(users, w);
      ResaveSucceeds(once, w);
    }
  }

  // =====================================================================
  // The handlers on the store

  method Register(store: Store, email: string, k: nat, now: int, newId: Id, delivery: Delivery)
    returns (resp: Response, mail: Option<Mail>)
    requires store.Valid() && k < 900000 && newId !in store.users
    modifies store
    ensures store.Valid()
    ensures Step(resp, store.users, mail) ==
      RegisterSpec(old(store.users), email, k, now, newId, store.defaultOtpExpiry, delivery)
  {
    var existing := store.FindOne(email);
    if existing.Some? {
      return Reply(400, false, "Email already exists. Please use a different email."), None;
    }
    var code := GenerateOtp(k);
    var u := NewUser(newId, email, Some(StoredOtp(k)), Some(now + OtpLifetimeMs), store.defaultOtpExpiry);
    var saved := store.Save(u);
    if saved.Threw? {
      return ServerError(saved.fault), None;
    }
    mail := Some(OtpMail(email, code));
    match delivery {
      case DeliveryFailed(reason) => resp := ServerError(MailFault(reason));
      case Delivered => resp := Reply(200, true, "OTP sent to your email for verification");
    }
  }

  method SendOtpCtrl(store: Store, email: string, k: nat, now: int, delivery: Delivery)
    returns (resp: Response, mail: Option<Mail>)
    requires store.Valid() && k < 900000
    modifies store
    ensures store.Valid()
    ensures Step(resp, store.users, mail) == SendOtpSpec(old(store.users), email, k, now, delivery)
  {
    var existing := store.FindOne(email);
    if existing.None? {
      return Reply(400, false, "Email does not exist. Please use a different email."), None;
    }
    var code := GenerateOtp(k);
    mail := Some(OtpMail(email, code));
    if delivery.DeliveryFailed? {
      return ServerError(MailFault(delivery.reason)), mail;
    }
    var u := Reissued(existing.value, StoredOtp(k), now);
    var saved := store.Save(u);
    match saved {
      case Threw(f) => resp := ServerError(f);
      case Done => resp := Reply(200, true, "OTP sent to your email for verification");
    }
  }

  method Login(store: Store, email: string, otp: Json, now: int, sign: JwtClaims -> Signature)
    returns (resp: Response)
    requires store.Valid()
    modifies store
    ensures store.Valid()
    ensures Step(resp, store.users, None) == LoginSpec(old(store.users), email, otp, now, sign)
  {
    if email == "" || !Truthy(otp) {
      return Reply(400, false, "Please provide both email and OTP");
    }
    var found := store.FindOne(email);
    if found.None? {
      return Reply(404, false, "User not found");
    }
    var user := found.value;
    if ExpiryValue(user.otpExpiry) < now {
      var saved := store.Save(Cleared(user));
      match saved {
        case Threw(f) => resp := ServerError(f);
        case Done => resp := Reply(400, false, "OTP has expired. Please request a new OTP.");
      }
      return;
    }
    var v := VerifyUser(store, user.id, otp);
    if !v.success {
      return Response(400, false, v.message, NoData, None);
    }
    resp := SendToken(v.user, 200, "Login Successful", now, sign);
  }

  method UpdateProfile(store: Store, userId: Id, name: Option<string>, email: Option<string>, number: Option<int>,
                       addresses: Option<AddressInput>, freshId: Id)
    returns (resp: Response)
    requires store.Valid()
    modifies store
    ensures store.Valid()
    ensures Step(resp, store.users, None) ==
      UpdateProfileSpec(old(store.users), userId, name, email, number, addresses, freshId)
  {
    var found := store.FindById(userId);
    if found.None? {
      return Reply(404, false, "User not found");
    }
    assert RecordValid(found.value);
    var merged := MergeAddressesAsWritten(found.value.addresses, addresses, freshId);
    if merged.None? {
      return ServerError(UndefinedAddresses);
    }
    var user := Profiled(found.value, name, email, number, merged.value);
    ProfiledNormalised(found.value, name, email, number, merged.value);
    var saved := store.Save(user);
    match saved {
      case Threw(f) => resp := ServerError(f);
      case Done => resp := Saved("Profile Updated successfully", user);
    }
  }

  method DeleteProfile(store: Store, userId: Id) returns (resp: Response)
    requires store.Valid()
    modifies store
    ensures store.Valid()
    ensures Step(resp, store.users, None) == DeleteProfileSpec(old(store.users), userId)
  {
    var deleted := store.FindByIdAndDelete(userId);
    if deleted.None? {
      return Reply(404, false, "User not found or already deleted");
    }
    resp := Reply(200, true, "User profile deleted successfully");
  }

  method CreateAddress(store: Store, userId: Id, fields: AddressFields, freshId: Id) returns (resp: Response)
    requires store.Valid()
    modifies store
    ensures store.Valid()
    ensures Step(resp, store.users, None) == CreateAddressSpec(old(store.users), userId, fields, freshId)
  {
    var found := store.FindById(userId);
    if found.None? {
      return ServerError(NullUser);
    }
    var user := found.value;
    assert RecordValid(user);
    if HasAddress(user.addresses, fields) {
      return Reply(400, false, "This address already exists in your profile.");
    }
    user := user.(addresses := user.addresses + [Subdoc(freshId, fields)]);
    var saved := store.Save(user);
    match saved {
      case Threw(f) => resp := ServerError(f);
      case Done => resp := Saved("Address created successfully", user);
    }
  }

  method UpdateAddress(store: Store, userId: Id, addressId: Id, patch: AddressFields) returns (resp: Response)
    requires store.Valid()
    modifies store
    ensures store.Valid()
    ensures Step(resp, store.users, None) == UpdateAddressSpec(old(store.users), userId, addressId, patch)
  {
    var found := store.FindById(userId);
    if found.None? {
      return ServerError(NullUser);
    }
    var user := found.value;
    assert RecordValid(user);
    var i := IndexOf(user.addresses, addressId);
    if i == -1 {
      return Reply(404, false, "Address not found");
    }
    var a := user.addresses[i];
    user := user.(addresses := user.addresses[i := Subdoc(a.id, PatchAddress(a.fields, patch))]);
    var saved := store.Save(user);
    match saved {
      case Threw(f) => resp := ServerError(f);
      case Done => resp := Saved("Address updated successfully", user);
    }
  }

  method DeleteAddress(store: Store, userId: Id, addressId: Id) returns (resp: Response)
    requires store.Valid()
    modifies store
    ensures store.Valid()
    ensures Step(resp, store.users, None) == DeleteAddressSpec(old(store.users), userId, addressId)
  {
    var found := store.FindById(userId);
    if found.None? {
      return ServerError(NullUser);
    }
    var user := found.value;
    assert RecordValid(user);
    user := user.(addresses := Without(user.addresses, addressId));
    var saved := store.Save(user);
    match saved {
      case Threw(f) => resp := ServerError(f);
      case Done => resp := Saved("Address deleted successfully", user);
    }
  }

  method CreateSubUser(store: Store, userId: Id, input: SubUserInput, freshId: Id) returns (resp: Response)
    requires store.Valid()
    modifies store
    ensures store.Valid()
    ensures Step(resp, store.users, None) == CreateSubUserSpec(old(store.users), userId, input, freshId)
  {
    var found := store.FindById(userId);
    if found.None? {
      return ServerError(NullUser);
    }
    var user := found.value;
    assert RecordValid(user);
    if CollidesAsWritten(user.subUsers, input, None) {
      return Reply(400, false, "Sub-user with the same email or number already exists.");
    }
    var before := user.subUsers;
    user := user.(subUsers := before + [NewSubUser(freshId, input)]);
    assert forall j | 0 <= j < |before| :: user.subUsers[j] == before[j];
    var saved := store.Save(user);
    match saved {
      case Threw(f) => resp := ServerError(f);
      case Done => resp := Saved("Sub-user created successfully", user);
    }
  }

  method UpdateSubUser(store: Store, userId: Id, subId: Id, patch: SubUserInput) returns (resp: Response)
    requires store.Valid()
    modifies store
    ensures store.Valid()
    ensures Step(resp, store.users, None) == UpdateSubUserSpec(old(store.users), userId, subId, patch)
  {
    var found := store.FindById(userId);
    if found.None? {
      return ServerError(NullUser);
    }
    var user := found.value;
    assert RecordValid(user);
    var i := IndexOf(user.subUsers, subId);
    if i == -1 {
      return Reply(404, false, "Sub-user not found");
    }
    if CollidesAsWritten(user.subUsers, patch, Some(subId)) {
      return Reply(400, false, "A sub-user with the same email or number already exists");
    }
    user := user.(subUsers := user.subUsers[i := PatchSubUser(user.subUsers[i], patch)]);
    var saved := store.Save(user);
    match saved {
      case Threw(f) => resp := ServerError(f);
      case Done => resp := Saved("Sub-user updated successfully", user);
    }
  }

  method DeleteSubUser(store: Store, userId: Id, subId: Id) returns (resp: Response)
    requires store.Valid()
    modifies store
    ensures store.Valid()
    ensures Step(resp, store.users, None) == DeleteSubUserSpec(old(store.users), userId, subId)
  {
    var found := store.FindById(userId);
    if found.None? {
      return ServerError(NullUser);
    }
    var user := found.value;
    WithoutKeepsRecordValid(user, subId);
    user := user.(subUsers := Without(user.subUsers, subId));
    var saved := store.Save(user);
    match saved {
      case Threw(f) => resp := ServerError(f);
      case Done => resp := Saved("Sub-user deleted successfully", user);
    }
  }
}
