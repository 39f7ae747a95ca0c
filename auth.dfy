/** middleware/auth.js: the gate in front of every protected handler. It
    reads the `token` cookie, decodes it, checks the expiry claim, looks the
    record up and admits only a verified one. */
module Auth {
  import opened Js
  import opened UserModel
  import opened Http
  import opened Tokens

  /** The decoded payload's `_id` and `exp` claims; None is an absent claim. */
  datatype TokenPayload = TokenPayload(id: Option<string>, exp: Option<int>)

  /** What `jwt.verify(token, secret)` does: throw, or return the payload
      (None for a falsy one). */
  datatype Decode = DecodeThrew(reason: string) | Decoded(payload: Option<TokenPayload>)

  /** What `User.findById(new ObjectId(decoded._id))` does: throw, or
      return a record or null. */
  datatype Lookup = LookupThrew(reason: string) | Found(user: Option<User>)

  /** The gate's verdict: a 401 with its reason, a 500 with the caught
      error, or admission of the looked-up record. */
  datatype Verdict = Unauthorized(reason: string) | Failed(fault: Fault) | Admit(user: User)

  /** `if (!token)`. */
  predicate HasToken(token: Option<string>) {
    token.Some? && token.value != ""
  }

  /** `!decoded || !decoded._id`, negated. */
  predicate HasId(payload: Option<TokenPayload>) {
    payload.Some? && payload.value.id.Some? && payload.value.id.value != ""
  }

  /** `decoded.exp * 1000 <= now`. An absent `exp` makes the product NaN,
      and a comparison with NaN is false. */
  predicate TokenExpired(p: TokenPayload, now: int) {
    p.exp.Some? && p.exp.value * 1000 <= now
  }

  /** All the checks before the lookup pass. */
  predicate TokenAccepted(token: Option<string>, decode: Decode, now: int) {
    HasToken(token) && decode.Decoded? && HasId(decode.payload) && !TokenExpired(decode.payload.value, now)
  }

  /** The decision chain of isAuthenticated, lines 9-42: each check runs
      only when every earlier one passed, and the first that fails decides. */
  function Gate(token: Option<string>, decode: Decode, now: int, lookup: Lookup): (v: Verdict)
    ensures v.Admit? <==>
      TokenAccepted(token, decode, now) && lookup.Found? && lookup.user.Some? && lookup.user.value.verified
    ensures v.Admit? ==> lookup.Found? && lookup.user == Some(v.user) && v.user.verified
    ensures v == Unauthorized("Unauthorized. Please log in.") <==> !HasToken(token)
    ensures v == Unauthorized("Invalid token") <==>
      HasToken(token) && decode.Decoded? && !HasId(decode.payload)
    ensures v == Unauthorized("Token has expired") <==>
      HasToken(token) && decode.Decoded? && HasId(decode.payload) && TokenExpired(decode.payload.value, now)
    ensures v == Unauthorized("User is not verified") <==>
      TokenAccepted(token, decode, now) && lookup.Found? && (lookup.user.None? || !lookup.user.value.verified)
    ensures v.Failed? <==>
      HasToken(token) && (decode.DecodeThrew? || (TokenAccepted(token, decode, now) && lookup.LookupThrew?))
  {
    if !HasToken(token) then Unauthorized("Unauthorized. Please log in.")
    else match decode
      case DecodeThrew(reason) => Failed(TokenFault(reason))
      case Decoded(payload) =>
        if !HasId(payload) then Unauthorized("Invalid token")
        else if TokenExpired(payload.value, now) then Unauthorized("Token has expired")
        else match lookup
          case LookupThrew(reason) => Failed(LookupFault(reason))
          case Found(user) =>
            if user.None? || !user.value.verified then Unauthorized("User is not verified")
            else Admit(user.value)
  }

  /** The reply the middleware sends when it does not admit. */
  function Rejection(v: Verdict): Response
    requires !v.Admit?
  {
    match v
    case Unauthorized(reason) => Reply(401, false, reason)
    case Failed(f) => ServerError(f)
  }

  /** What findById gives for the decoded id; `fault` stands for an
      exception from the ObjectId cast or the query. */
  function LookupIn(users: map<Id, User>, decode: Decode, fault: Option<string>): Lookup {
    if fault.Some? then LookupThrew(fault.value)
    else if decode.Decoded? && HasId(decode.payload) && decode.payload.value.id.value in users then
      Found(Some(users[decode.payload.value.id.value]))
    else Found(None)
  }

  /** At the very millisecond `exp * 1000` the token is already expired,
      unlike login's OTP expiry test, which is strict. */
  lemma ExpiresAtBoundary(id: string, exp: int)
    ensures TokenExpired(TokenPayload(Some(id), Some(exp)), exp * 1000)
    ensures !TokenExpired(TokenPayload(Some(id), Some(exp)), exp * 1000 - 1)
  {
  }

  /** A payload without `exp` never expires by the gate's own test. */
  lemma MissingExpNeverExpires(id: string, now: int)
    ensures !TokenExpired(TokenPayload(Some(id), None), now)
  {
  }

  /** The request object the middleware works on. */
  class Request {
    /** `req.cookies.token`. */
    const token: Option<string>
    /** `req.user`. */
    var user: Option<User>
    /** How many times the middleware has called `next()`. */
    var nextCalls: nat

    constructor (token: Option<string>)
      ensures this.token == token && user.None? && nextCalls == 0
    {
      this.token := token;
      user := None;
      nextCalls := 0;
    }
  }

  /** `isAuthenticated(req, res, next)`: either answers with a rejection
      and leaves `req` alone, or sets `req.user` to the looked-up record and
      calls `next` exactly once, without answering. */
  method IsAuthenticated(req: Request, store: Store, decode: Decode, now: int, lookupFault: Option<string>)
    returns (resp: Option<Response>)
    requires store.Valid()
    modifies req
    ensures var v := Gate(req.token, decode, now, LookupIn(store.users, decode, lookupFault));
      && (v.Admit? ==>
            && resp.None? && req.user == Some(v.user)
            && req.nextCalls == old(req.nextCalls) + 1
            && v.user == store.users[decode.payload.value.id.value]
            && v.user.id == decode.payload.value.id.value)
      && (!v.Admit? ==>
            resp == Some(Rejection(v)) && req.user == old(req.user) && req.nextCalls == old(req.nextCalls))
  {
    if !HasToken(req.token) {
      return Some(Reply(401, false, "Unauthorized. Please log in."));
    }
    if decode.DecodeThrew? {
      return Some(ServerError(TokenFault(decode.reason)));
    }
    var payload := decode.payload;
    if !HasId(payload) {
      return Some(Reply(401, false, "Invalid token"));
    }
    if TokenExpired(payload.value, now) {
      return Some(Reply(401, false, "Token has expired"));
    }
    if lookupFault.Some? {
      return Some(ServerError(LookupFault(lookupFault.value)));
    }
    var user := store.FindById(payload.value.id.value);
    if user.None? || !user.value.verified {
      return Some(Reply(401, false, "User is not verified"));
    }
    req.user := user;
    req.nextCalls := req.nextCalls + 1;
    resp := None;
  }

  /** A non-empty token whose decoded claims name a verified record opens
      the gate exactly until the millisecond `exp * 1000`, and is refused as
      expired from then on. */
  lemma SessionGate(users: map<Id, User>, id: Id, token: string, exp: int, now: int)
    requires StoreValid(users) && id in users && id != "" && users[id].verified && token != ""
    ensures var d := Decoded(Some(TokenPayload(Some(id), Some(exp))));
      Gate(Some(token), d, now, LookupIn(users, d, None)) ==
        if now < exp * 1000 then Admit(users[id]) else Unauthorized("Token has expired")
  {
    var d := Decoded(Some(TokenPayload(Some(id), Some(exp))));
    assert users[id].id == id;
    assert HasToken(Some(token)) && HasId(d.payload);
    assert LookupIn(users, d, None) == Found(Some(users[id]));
  }

  /** The session that sendToken issues at login, with getJWTToken as
      written: `decoded` is what `jwt.verify` gives back for the token, taken
      to be the claims it was signed over. The cookie expires two days after
      issue, but the token opens the gate for about 2000 days, and is
      refused as expired only from `issued + 1000 * CookieExpirationTime`. */
  lemma SessionRoundTrip(users: map<Id, User>, id: Id, issued: int, sign: JwtClaims -> Signature,
                         now: int, decoded: Decode)
    requires StoreValid(users) && id in users && users[id].verified
    requires SendToken(Some(users[id]), 200, "Login Successful", issued, sign).success
    requires SendToken(Some(users[id]), 200, "Login Successful", issued, sign).body.token != ""
    requires decoded == Decoded(Some(TokenPayload(Some(id), Some(JwtClaimsAsWritten(users[id], issued).exp))))
    ensures var r := SendToken(Some(users[id]), 200, "Login Successful", issued, sign);
      var g := Gate(Some(r.body.token), decoded, now, LookupIn(users, decoded, None));
      && (now <= issued + 1000 * CookieExpirationTime - 1000 ==> g == Admit(users[id]))
      && (now >= issued + 1000 * CookieExpirationTime ==> g == Unauthorized("Token has expired"))
      && (r.cookie.value.expires <= now <= issued + 1000 * CookieExpirationTime - 1000 ==> g == Admit(users[id]))
  {
    var token := SendToken(Some(users[id]), 200, "Login Successful", issued, sign).body.token;
    SessionGate(users, id, token, JwtClaimsAsWritten(users[id], issued).exp, now);
  }

  /** With the lifetime given in seconds, the session opens the gate until
      the token's expiry, which falls within the last second before the
      cookie's own, and is refused as expired from the cookie's expiry on. */
  lemma SessionRoundTripCorrected(users: map<Id, User>, id: Id, issued: int, sign: JwtClaims -> Signature,
                                  now: int, decoded: Decode)
    requires StoreValid(users) && id in users && users[id].verified
    requires SendTokenCorrected(Some(users[id]), 200, "Login Successful", issued, sign).success
    requires SendTokenCorrected(Some(users[id]), 200, "Login Successful", issued, sign).body.token != ""
    requires decoded == Decoded(Some(TokenPayload(Some(id), Some(JwtClaimsFor(users[id], issued).exp))))
    ensures var r := SendTokenCorrected(Some(users[id]), 200, "Login Successful", issued, sign);
      var g := Gate(Some(r.body.token), decoded, now, LookupIn(users, decoded, None));
      && (now <= r.cookie.value.expires - 1000 ==> g == Admit(users[id]))
      && (now >= r.cookie.value.expires ==> g == Unauthorized("Token has expired"))
  {
    var token := SendTokenCorrected(Some(users[id]), 200, "Login Successful", issued, sign).body.token;
    SessionGate(users, id, token, JwtClaimsFor(users[id], issued).exp, now);
  }
}
