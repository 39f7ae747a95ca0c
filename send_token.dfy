/** utils/sendToken.js: answering a successful login with a signed session
    token, both as an http-only cookie and in the JSON body. */
module Tokens {
  import opened Js
  import opened UserModel
  import opened Http

  /** What `jwt.sign` does with the claims: a token, or the error it throws. */
  datatype Signature = Signed(token: string) | SignFailed(reason: string)

  /** The cookie options sendToken passes to `res.cookie`. */
  function SessionCookie(token: string, now: int): Cookie {
    Cookie("token", token, true, now + CookieExpirationTime, "/", "localhost")
  }

  /** The reply sendToken builds when the token is signed over
      `Claims(id, expiresIn, now)`: a record without an id gets a 500 and no
      cookie; otherwise the signed token goes out both as the `token` cookie
      and in the body, beside the record's public projection. When signing
      throws, the error reaches the caller's `catch`, which answers 500. */
  function SessionReply(user: Option<User>, statusCode: int, message: string, now: int,
                        sign: JwtClaims -> Signature, expiresIn: int): Response
  {
    if user.None? || user.value.id == "" then
      Response(500, false, Text("User information not available"), NoData, None)
    else
      var u := user.value;
      match sign(Claims(u.id, expiresIn, now))
      case SignFailed(reason) => ServerError(SignFault(reason))
      case Signed(token) =>
        Response(statusCode, true, Text(message), Session(PublicUser(u.id, u.email, u.verified), token),
                 Some(SessionCookie(token, now)))
  }

  /** `sendToken(res, user, statusCode, message)` at time `now`, with the
      token from `user.getJWTToken()` as written: signed over
      JwtClaimsAsWritten, whose lifetime the library reads as seconds. */
  function SendToken(user: Option<User>, statusCode: int, message: string, now: int,
                     sign: JwtClaims -> Signature): (r: Response)
    ensures user.None? || user.value.id == "" ==>
      r == Response(500, false, Text("User information not available"), NoData, None)
    ensures r.success <==> user.Some? && user.value.id != "" && sign(JwtClaimsAsWritten(user.value, now)).Signed?
    ensures r.cookie.Some? <==> r.success
    ensures !r.success ==> r.status == 500 && r.body == NoData
    ensures r.success ==>
      && r.status == statusCode && r.message == Text(message)
      && r.body == Session(PublicUser(user.value.id, user.value.email, user.value.verified),
                           sign(JwtClaimsAsWritten(user.value, now)).token)
      && r.cookie == Some(SessionCookie(r.body.token, now))
  {
    SessionReply(user, statusCode, message, now, sign, CookieExpirationTime)
  }

  /** sendToken with getJWTToken's lifetime given in seconds, as intended:
      the same reply, the token signed over JwtClaimsFor. */
  function SendTokenCorrected(user: Option<User>, statusCode: int, message: string, now: int,
                              sign: JwtClaims -> Signature): (r: Response)
    ensures r.success <==> user.Some? && user.value.id != "" && sign(JwtClaimsFor(user.value, now)).Signed?
    ensures r.success ==>
      && r.status == statusCode && r.message == Text(message)
      && r.body == Session(PublicUser(user.value.id, user.value.email, user.value.verified),
                           sign(JwtClaimsFor(user.value, now)).token)
      && r.cookie == Some(SessionCookie(r.body.token, now))
  {
    SessionReply(user, statusCode, message, now, sign, TokenLifetimeSeconds)
  }

  /** The cookie is named `token`, is hidden from scripts, is scoped to
      path "/" on localhost, expires two days after issue, and carries the
      very token the body shows. */
  lemma SessionCookieShape(user: Option<User>, statusCode: int, message: string, now: int,
                           sign: JwtClaims -> Signature)
    requires SendToken(user, statusCode, message, now, sign).success
    ensures var r := SendToken(user, statusCode, message, now, sign);
      && r.cookie.value.name == "token" && r.cookie.value.httpOnly
      && r.cookie.value.path == "/" && r.cookie.value.domain == "localhost"
      && r.cookie.value.expires == now + 172800000
      && r.cookie.value.value == r.body.token
  {
  }
}
