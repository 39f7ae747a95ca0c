/** The User collection of models/userModel.js: the record with its embedded
    address and sub-user arrays, what the schema's defaults, setters,
    validators and indexes do to it, the claims getJWTToken signs, and the
    collection itself as a store that the handlers read and save to. */
module UserModel {
  import opened Js

  /** A document id (an ObjectId) in its `toString()` form. */
  type Id = string

  /** Five minutes in milliseconds: how long an issued OTP stays valid. */
  const OtpLifetimeMs: int := 5 * 60 * 1000

  /** Two days in milliseconds: getJWTToken's `cookieExpirationTime`, and
      the lifetime sendToken gives the cookie. */
  const CookieExpirationTime: int := 2 * 24 * 60 * 60 * 1000

  /** An element of an embedded document array: its `_id` and its fields. */
  datatype Subdoc<T> = Subdoc(id: Id, fields: T)

  /** addressSchema: five optional strings; None is an unset field. */
  datatype AddressFields = AddressFields(
    houseNumber: Option<string>,
    street: Option<string>,
    city: Option<string>,
    state: Option<string>,
    postalCode: Option<string>)

  /** subUserSchema: three required strings. A field the request left out
      is held as "", which the `required` validator rejects just the same. */
  datatype SubUserFields = SubUserFields(name: string, email: string, number: string)

  type Address = Subdoc<AddressFields>
  type SubUser = Subdoc<SubUserFields>

  /** userSchema, without the avatar and the timestamps. */
  datatype User = User(
    id: Id,
    name: Option<string>,
    email: string,
    number: Option<int>,
    addresses: seq<Address>,
    subUsers: seq<SubUser>,
    verified: bool,
    otp: Option<int>,
    otpExpiry: Option<int>)

  // ---------------------------------------------------------------------
  // Embedded arrays: the searches and the filter the handlers run on them

  /** `list.findIndex(e => e._id.toString() === id)`. */
  function IndexOf<T>(s: seq<Subdoc<T>>, id: Id): (i: int)
    ensures -1 <= i < |s|
    ensures 0 <= i ==> s[i].id == id && forall j | 0 <= j < i :: s[j].id != id
    ensures i == -1 <==> forall j | 0 <= j < |s| :: s[j].id != id
  {
    if s == [] then -1
    else if s[0].id == id then 0
    else
      var j := IndexOf(s[1..], id);
      if j == -1 then -1 else j + 1
  }

  /** `list.filter(e => e._id.toString() !== id)`. */
  function Without<T>(s: seq<Subdoc<T>>, id: Id): (r: seq<Subdoc<T>>)
    ensures |r| <= |s|
  {
    if s == [] then [] else (if s[0].id == id then [] else [s[0]]) + Without(s[1..], id)
  }

  /** The filter keeps exactly the entries with another id. */
  lemma {:induction false} WithoutMembers<T>(s: seq<Subdoc<T>>, id: Id)
    ensures forall e | e in Without(s, id) :: e in s && e.id != id
    ensures forall e | e in s && e.id != id :: e in Without(s, id)
  {
    if s != [] {
      WithoutMembers(s[1..], id);
      assert s == [s[0]] + s[1..];
    }
  }

  /** The filter keeps the order of what it keeps: it distributes over
      concatenation. */
  lemma {:induction false} WithoutAppend<T>(a: seq<Subdoc<T>>, b: seq<Subdoc<T>>, id: Id)
    ensures Without(a + b, id) == Without(a, id) + Without(b, id)
  {
    if a == [] {
      assert a + b == b;
    } else {
      var ab := a + b;
      assert ab[0] == a[0] && ab[1..] == a[1..] + b;
      WithoutAppend(a[1..], b, id);
      var head := if a[0].id == id then [] else [a[0]];
      var x, y := Without(a[1..], id), Without(b, id);
      assert Without(ab, id) == head + (x + y);
      assert head + (x + y) == (head + x) + y;
    }
  }

  /** Deleting an id a second time changes nothing. */
  lemma {:induction false} WithoutIdempotent<T>(s: seq<Subdoc<T>>, id: Id)
    ensures Without(Without(s, id), id) == Without(s, id)
  {
    if s != [] {
      WithoutIdempotent(s[1..], id);
      var head := if s[0].id == id then [] else [s[0]];
      WithoutAppend(head, Without(s[1..], id), id);
    }
  }

  /** Deleting an id no entry has leaves the list as it was. */
  lemma {:induction false} WithoutAbsent<T>(s: seq<Subdoc<T>>, id: Id)
    requires forall j | 0 <= j < |s| :: s[j].id != id
    ensures Without(s, id) == s
  {
    if s != [] {
      WithoutAbsent(s[1..], id);
    }
  }

  // ---------------------------------------------------------------------
  // Schema rules

  /** The `required` validators of subUserSchema. */
  predicate SubUserComplete(s: SubUser) {
    s.fields.name != "" && s.fields.email != "" && s.fields.number != ""
  }

  predicate AllSubUsersComplete(subs: seq<SubUser>) {
    forall i | 0 <= i < |subs| :: SubUserComplete(subs[i])
  }

  /** Two sub-users share no id, no email and no number. */
  predicate Distinct(a: SubUser, b: SubUser) {
    a.id != b.id && a.fields.email != b.fields.email && a.fields.number != b.fields.number
  }

  /** No two sub-users of one record share an id, an email or a number. */
  predicate SubUsersUnique(subs: seq<SubUser>) {
    forall i, j | 0 <= i < j < |subs| :: Distinct(subs[i], subs[j])
  }

  /** Removing sub-users keeps the rest pairwise distinct. */
  lemma {:induction false} WithoutKeepsUnique(s: seq<SubUser>, id: Id)
    requires SubUsersUnique(s)
    ensures SubUsersUnique(Without(s, id))
  {
    if s != [] {
      var t := s[1..];
      UniqueSplit(s);
      WithoutKeepsUnique(t, id);
      var w := Without(t, id);
      if s[0].id != id {
        WithoutMembers(t, id);
        forall e | e in w ensures Distinct(s[0], e) {
          var k :| 0 <= k < |t| && t[k] == e;
        }
        UniqueCons(s[0], w);
        assert Without(s, id) == [s[0]] + w;
      } else {
        assert Without(s, id) == [] + w;
      }
    }
  }

  /** A list of distinct sub-users is a head distinct from every later one
      followed by a tail of distinct sub-users. */
  lemma UniqueSplit(s: seq<SubUser>)
    requires SubUsersUnique(s) && s != []
    ensures SubUsersUnique(s[1..])
    ensures forall k | 0 <= k < |s[1..]| :: Distinct(s[0], s[1..][k])
  {
    var t := s[1..];
    forall i, j | 0 <= i < j < |t| ensures Distinct(t[i], t[j]) {
      assert t[i] == s[i + 1] && t[j] == s[j + 1];
    }
    forall k | 0 <= k < |t| ensures Distinct(s[0], t[k]) {
      assert t[k] == s[k + 1];
    }
  }

  /** And the converse. */
  lemma UniqueCons(x: SubUser, w: seq<SubUser>)
    requires SubUsersUnique(w) && forall e | e in w :: Distinct(x, e)
    ensures SubUsersUnique([x] + w)
  {
    var r := [x] + w;
    forall i, j | 0 <= i < j < |r| ensures Distinct(r[i], r[j]) {
      assert r[j] == w[j - 1];
      if i != 0 {
        assert r[i] == w[i - 1];
      }
    }
  }

  /** An OTP and its expiry are set together and cleared together. */
  predicate OtpPaired(u: User) {
    u.otp.Some? == u.otpExpiry.Some?
  }

  /** What the schema's lower-case setters and the handlers' pairing of
      the code with its expiry guarantee of every record they save. Sub-user
      uniqueness is not part of it: no validator or index enforces it. */
  predicate Normalised(u: User) {
    && OtpPaired(u)
    && IsLowerCase(u.email)
    && (forall i | 0 <= i < |u.subUsers| :: IsLowerCase(u.subUsers[i].fields.email))
  }

  /** A record the database holds: normalised and passing the validators. */
  predicate RecordValid(u: User) {
    Normalised(u) && AllSubUsersComplete(u.subUsers)
  }

  /** The unique index on email. */
  ghost predicate EmailsUnique(users: map<Id, User>) {
    forall a, b | a in users && b in users && users[a].email == users[b].email :: a == b
  }

  /** The invariant of the collection: records sit under their own id, are
      valid, and have pairwise different emails. */
  ghost predicate StoreValid(users: map<Id, User>) {
    && (forall id | id in users :: users[id].id == id && RecordValid(users[id]))
    && EmailsUnique(users)
  }

  /** What the sub-user handlers' duplicate checks are meant to keep: no
      record holds two sub-users with one id, one email or one number. */
  ghost predicate SubUsersUniqueIn(users: map<Id, User>) {
    forall id | id in users :: SubUsersUnique(users[id].subUsers)
  }

  /** `User.findOne({ email })`: the id of the record with that email. */
  ghost function EmailOwner(users: map<Id, User>, email: string): (r: Option<Id>)
    ensures r.Some? ==> r.value in users && users[r.value].email == email
    ensures r.None? ==> forall id | id in users :: users[id].email != email
  {
    if exists id :: id in users && users[id].email == email then
      var id :| id in users && users[id].email == email; Some(id)
    else None
  }

  /** With unique emails, the owner of a record's email is that record. */
  lemma OwnerIsUnique(users: map<Id, User>, id: Id)
    requires EmailsUnique(users) && id in users
    ensures EmailOwner(users, users[id].email) == Some(id)
  {
  }

  datatype Outcome = Done | Threw(fault: Fault)

  /** What `user.save()` does with a record: the sub-user validators run
      first, then the unique index on email is consulted. */
  function SaveCheck(users: map<Id, User>, u: User): (r: Outcome)
    ensures r.Done? || r == Threw(ValidationFault) || r == Threw(DuplicateKey)
    ensures r.Done? <==>
      AllSubUsersComplete(u.subUsers) && forall id | id in users && id != u.id :: users[id].email != u.email
  {
    if exists i :: 0 <= i < |u.subUsers| && !SubUserComplete(u.subUsers[i]) then Threw(ValidationFault)
    else if exists id :: id in users && id != u.id && users[id].email == u.email then Threw(DuplicateKey)
    else Done
  }

  /** A save the database accepts keeps the collection valid. */
  lemma SavePreservesValid(users: map<Id, User>, u: User)
    requires StoreValid(users) && Normalised(u) && SaveCheck(users, u).Done?
    ensures StoreValid(users[u.id := u])
  {
    var after := users[u.id := u];
    forall a, b | a in after && b in after && after[a].email == after[b].email
      ensures a == b
    {
      if a != u.id && b != u.id {
        assert users[a].email == users[b].email;
      }
    }
  }

  /** Replacing a record by one with the same email leaves every email's
      owner where it was. */
  lemma SaveKeepsOwners(users: map<Id, User>, u: User, email: string)
    requires EmailsUnique(users) && u.id in users && users[u.id].email == u.email
    ensures EmailsUnique(users[u.id := u])
    ensures EmailOwner(users[u.id := u], email) == EmailOwner(users, email)
  {
    var after := users[u.id := u];
    assert EmailsUnique(after) by {
      forall a, b | a in after && b in after && after[a].email == after[b].email
        ensures a == b
      {
        assert users[a].email == users[b].email;
      }
    }
    var o := EmailOwner(users, email);
    if o.Some? {
      assert after[o.value].email == email;
    } else {
      assert forall id | id in after :: after[id].email == users[id].email;
    }
  }

  // ---------------------------------------------------------------------
  // The TTL index

  /** `userSchema.index({ otp_expiry: 1 }, { expireAfterSeconds: 0 })`: the
      database may delete the record once its otp_expiry has passed. */
  predicate TtlExpired(u: User, now: int) {
    u.otpExpiry.Some? && u.otpExpiry.value <= now
  }

  /** One pass of the database's TTL monitor at `now`. */
  function Purge(users: map<Id, User>, now: int): (r: map<Id, User>)
    ensures forall id | id in r :: id in users && r[id] == users[id] && !TtlExpired(r[id], now)
    ensures forall id | id in users && !TtlExpired(users[id], now) :: id in r
  {
    map id | id in users && !TtlExpired(users[id], now) :: users[id]
  }

  lemma PurgePreservesValid(users: map<Id, User>, now: int)
    requires StoreValid(users)
    ensures StoreValid(Purge(users, now))
  {
    var r := Purge(users, now);
    forall a, b | a in r && b in r && r[a].email == r[b].email ensures a == b {
      assert users[a].email == users[b].email;
    }
  }

  // ---------------------------------------------------------------------
  // getJWTToken

  /** The claims jsonwebtoken signs for the payload `{ _id }` at `now` (in
      milliseconds) with a numeric `expiresIn`, which it counts in seconds:
      `iat` is the signing time in whole seconds and `exp` is
      `iat + expiresIn`. */
  datatype JwtClaims = JwtClaims(id: Id, iat: int, exp: int)

  function Claims(id: Id, expiresIn: int, now: int): JwtClaims {
    JwtClaims(id, now / 1000, now / 1000 + expiresIn)
  }

  /** getJWTToken as written: `expiresIn: cookieExpirationTime`, a number of
      milliseconds that the library reads as seconds. */
  function JwtClaimsAsWritten(u: User, now: int): (c: JwtClaims)
    ensures c.id == u.id && c.iat * 1000 <= now < c.iat * 1000 + 1000
    ensures c.exp - c.iat == CookieExpirationTime
  {
    Claims(u.id, CookieExpirationTime, now)
  }

  /** The token lifetime in the seconds jsonwebtoken expects. */
  const TokenLifetimeSeconds: int := CookieExpirationTime / 1000

  /** getJWTToken with the lifetime given in seconds: the payload is the
      record's id alone, and the token expires with the cookie, less the
      sub-second part the library drops from `iat`. */
  function JwtClaimsFor(u: User, now: int): (c: JwtClaims)
    ensures c.id == u.id
    ensures now + CookieExpirationTime - 1000 < c.exp * 1000 <= now + CookieExpirationTime
  {
    Claims(u.id, TokenLifetimeSeconds, now)
  }

  /** The token as written stays valid a thousand times longer than the
      cookie that carries it: more than 5 years instead of 2 days. */
  lemma AsWrittenTokenOutlivesCookie(u: User, now: int)
    ensures JwtClaimsAsWritten(u, now).exp * 1000 > now + 1000 * CookieExpirationTime - 1000
    ensures JwtClaimsAsWritten(u, now).exp * 1000 > now + 2000 * 24 * 60 * 60 * 1000 - 1000
  {
  }

  /** `new User({ email, otp, otp_expiry })` with the schema's defaults:
      the email through the lower-case setter, `verified` false, empty
      arrays, and `schemaDefault` for an otp_expiry the caller left out. */
  function NewUser(id: Id, email: string, otp: Option<int>, otpExpiry: Option<int>, schemaDefault: int): (u: User)
    ensures u.id == id && u.email == Lower(email) && !u.verified
    ensures u.addresses == [] && u.subUsers == [] && u.name.None? && u.number.None?
    ensures u.otp == otp && u.otpExpiry == Some(if otpExpiry.Some? then otpExpiry.value else schemaDefault)
    ensures otp.Some? ==> Normalised(u)
  {
    User(id, None, Lower(email), None, [], [], false, otp, Some(otpExpiry.GetOr(schemaDefault)))
  }

  // ---------------------------------------------------------------------
  // The collection

  class Store {
    /** The schema's otp_expiry default, `Date.now() + 5 * 60 * 1000`,
        evaluated once when the schema is defined. */
    const defaultOtpExpiry: int
    var users: map<Id, User>

    ghost predicate Valid()
      reads this
    {
      StoreValid(users)
    }

    constructor (schemaLoadTime: int)
      ensures defaultOtpExpiry == schemaLoadTime + OtpLifetimeMs
      ensures users == map[] && Valid()
    {
      defaultOtpExpiry := schemaLoadTime + OtpLifetimeMs;
      users := map[];
    }

    /** `User.findOne({ email })`: Mongoose lower-cases the query the way it
        lower-cases the stored field. */
    method FindOne(email: string) returns (r: Option<User>)
      requires Valid()
      ensures r.Some? <==> EmailOwner(users, Lower(email)).Some?
      ensures r.Some? ==> r.value == users[EmailOwner(users, Lower(email)).value]
    {
      var e := Lower(email);
      var ids := users.Keys;
      while ids != {}
        invariant ids <= users.Keys
        invariant forall id | id in users && id !in ids :: users[id].email != e
        decreases ids
      {
        var id :| id in ids;
        if users[id].email == e {
          return Some(users[id]);
        }
        ids := ids - {id};
      }
      return None;
    }

    /** `User.findById(id)`. */
    method FindById(id: Id) returns (r: Option<User>)
      ensures r.Some? <==> id in users
      ensures r.Some? ==> r.value == users[id]
    {
      r := if id in users then Some(users[id]) else None;
    }

    /** `user.save()`: stores the record under its id unless a validator or
        the unique email index rejects it, in which case nothing changes. */
    method Save(u: User) returns (r: Outcome)
      requires Valid() && Normalised(u)
      modifies this
      ensures Valid()
      ensures r == SaveCheck(old(users), u)
      ensures users == if r.Done? then old(users)[u.id := u] else old(users)
    {
      r := SaveCheck(users, u);
      if r.Done? {
        SavePreservesValid(users, u);
        users := users[u.id := u];
      }
    }

    /** `User.findByIdAndDelete(id)`. */
    method FindByIdAndDelete(id: Id) returns (r: Option<User>)
      requires Valid()
      modifies this
      ensures Valid()
      ensures r.Some? <==> id in old(users)
      ensures r.Some? ==> r.value == old(users)[id]
      ensures users == old(users) - {id}
    {
      r := if id in users then Some(users[id]) else None;
      users := users - {id};
    }

    /** The TTL monitor's pass at `now`. */
    method ExpireOtps(now: int)
      requires Valid()
      modifies this
      ensures Valid()
      ensures users == Purge(old(users), now)
    {
      PurgePreservesValid(users, now);
      users := Purge(users, now);
    }
  }
}
